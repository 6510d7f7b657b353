/** The space on a b-tree page, as blocks and as bytes: cells, the sorted list of free
    blocks, the gap, and stray fragments of fewer than four bytes. */
module BtreeSpace {
  import opened Arithmetic
  import opened Basics
  import opened BtreeCell

  datatype Block = Block(start: nat, size: nat) {
    ghost function End(): nat { start + size }
  }

  ghost function Get2(d: seq<Byte>, i: int): nat
    requires 0 <= i && i + 2 <= |d|
  {
    d[i] as int * 256 + d[i + 1] as int
  }

  ghost function Put2(d: seq<Byte>, i: int, v: nat): (r: seq<Byte>)
    requires 0 <= i && i + 2 <= |d| && v < 0x10000
    ensures |r| == |d|
    ensures Get2(r, i) == v
    ensures forall x :: 0 <= x < |d| && x != i && x != i + 1 ==> r[x] == d[x]
  {
    d[i := v / 256][i + 1 := v % 256]
  }

  // ------------------------------------------------------------ blocks

  ghost function Sum(bs: seq<Block>): nat {
    if bs == [] then 0 else Sum(bs[..|bs| - 1]) + bs[|bs| - 1].size
  }

  /** Sequences with one element left out, or one put in. */
  ghost function Without(bs: seq<Block>, k: nat): (r: seq<Block>)
    requires k < |bs|
    ensures |r| == |bs| - 1
    ensures forall j :: 0 <= j < |r| ==> r[j] == if j < k then bs[j] else bs[j + 1]
  {
    bs[..k] + bs[k + 1..]
  }

  ghost function With(bs: seq<Block>, k: nat, b: Block): (r: seq<Block>)
    requires k <= |bs|
    ensures |r| == |bs| + 1
    ensures forall j :: 0 <= j < |r| ==> r[j] == if j < k then bs[j] else if j == k then b else bs[j - 1]
  {
    bs[..k] + [b] + bs[k..]
  }

  ghost predicate Apart(a: Block, b: Block) { a.End() <= b.start || b.End() <= a.start }

  ghost predicate Inside(bs: seq<Block>, lo: nat, hi: nat) {
    forall i :: 0 <= i < |bs| ==> lo <= bs[i].start && bs[i].End() <= hi && bs[i].size >= 4
  }

  ghost predicate Disjoint(bs: seq<Block>) {
    forall i, j :: 0 <= i < j < |bs| ==> Apart(bs[i], bs[j])
  }

  ghost predicate Across(xs: seq<Block>, ys: seq<Block>) {
    forall i, j :: 0 <= i < |xs| && 0 <= j < |ys| ==> Apart(xs[i], ys[j])
  }

  /** In order, and at least four bytes apart as far as the first `sep` of them. */
  ghost predicate Spaced(free: seq<Block>, sep: int) {
    forall i, j :: 0 <= i < j < |free| ==> free[i].End() + (if i < sep then 4 else 0) <= free[j].start
  }

  lemma {:induction false} SumAppend(a: seq<Block>, b: seq<Block>)
    ensures Sum(a + b) == Sum(a) + Sum(b)
  {
    if b == [] {
      assert a + b == a;
    } else {
      SumAppend(a, b[..|b| - 1]);
      assert (a + b)[..|a + b| - 1] == a + b[..|b| - 1];
    }
  }

  lemma {:induction false} SumOne(b: Block)
    ensures Sum([b]) == b.size
  {
    assert [b][..0] == [];
  }

  /** A block in the middle contributes its size. */
  lemma {:induction false} SumMiddle(a: seq<Block>, b: Block, c: seq<Block>)
    ensures Sum(a + [b] + c) == Sum(a) + b.size + Sum(c)
  {
    SumAppend(a + [b], c);
    SumAppend(a, [b]);
    SumOne(b);
  }

  lemma {:induction false} SumWithout(bs: seq<Block>, k: nat)
    requires k < |bs|
    ensures Sum(Without(bs, k)) == Sum(bs) - bs[k].size
  {
    assert bs == bs[..k] + [bs[k]] + bs[k + 1..];
    SumMiddle(bs[..k], bs[k], bs[k + 1..]);
    SumAppend(bs[..k], bs[k + 1..]);
  }

  lemma {:induction false} SumWith(bs: seq<Block>, k: nat, b: Block)
    requires k <= |bs|
    ensures Sum(With(bs, k, b)) == Sum(bs) + b.size
  {
    assert bs == bs[..k] + bs[k..];
    SumMiddle(bs[..k], b, bs[k..]);
    SumAppend(bs[..k], bs[k..]);
  }

  lemma {:induction false} SumUpdate(bs: seq<Block>, k: nat, b: Block)
    requires k < |bs|
    ensures Sum(bs[k := b]) == Sum(bs) - bs[k].size + b.size
  {
    assert bs == bs[..k] + [bs[k]] + bs[k + 1..];
    assert bs[k := b] == bs[..k] + [b] + bs[k + 1..];
    SumMiddle(bs[..k], bs[k], bs[k + 1..]);
    SumMiddle(bs[..k], b, bs[k + 1..]);
  }

  // ------------------------------------------------------------ packing

  ghost function Range(lo: nat, hi: nat): (r: set<int>)
    ensures forall x :: x in r <==> lo <= x < hi
    decreases hi
  {
    if lo >= hi then {} else Range(lo, hi - 1) + {hi - 1}
  }

  ghost function Bytes(b: Block): set<int> { Range(b.start, b.End()) }

  ghost function Cover(bs: seq<Block>): set<int> {
    if bs == [] then {} else Cover(bs[..|bs| - 1]) + Bytes(bs[|bs| - 1])
  }

  lemma {:induction false} RangeSize(lo: nat, hi: nat)
    requires lo <= hi
    ensures |Range(lo, hi)| == hi - lo
    decreases hi
  {
    if lo < hi {
      RangeSize(lo, hi - 1);
    }
  }

  lemma {:induction false} InCover(bs: seq<Block>, x: int)
    ensures x in Cover(bs) <==> exists i :: 0 <= i < |bs| && bs[i].start <= x < bs[i].End()
  {
    if bs != [] {
      InCover(bs[..|bs| - 1], x);
      if x in Bytes(bs[|bs| - 1]) {
        assert bs[|bs| - 1].start <= x < bs[|bs| - 1].End();
      }
      if i :| 0 <= i < |bs| && bs[i].start <= x < bs[i].End() {
        if i < |bs| - 1 {
          assert bs[..|bs| - 1][i].start <= x < bs[..|bs| - 1][i].End();
        }
      }
    }
  }

  /** Disjoint blocks cover as many bytes as their sizes say. */
  lemma {:induction false} CoverSize(bs: seq<Block>)
    requires Disjoint(bs)
    ensures |Cover(bs)| == Sum(bs)
  {
    if bs != [] {
      var rest, b := bs[..|bs| - 1], bs[|bs| - 1];
      CoverSize(rest);
      RangeSize(b.start, b.End());
      forall x | x in Cover(rest) ensures x !in Bytes(b) {
        InCover(rest, x);
        var i :| 0 <= i < |rest| && rest[i].start <= x < rest[i].End();
        assert Apart(bs[i], bs[|bs| - 1]);
      }
      assert Cover(rest) !! Bytes(b);
    }
  }

  lemma {:induction false} PackedSum(bs: seq<Block>, lo: nat, hi: nat)
    requires Inside(bs, lo, hi) && Disjoint(bs) && lo <= hi
    ensures Sum(bs) <= hi - lo
  {
    CoverSize(bs);
    RangeSize(lo, hi);
    forall x | x in Cover(bs) ensures x in Range(lo, hi) {
      InCover(bs, x);
    }
    SubsetSize(Cover(bs), Range(lo, hi));
  }

  /** Used and free blocks together never exceed the room they lie in. */
  lemma {:induction false} Packed(used: seq<Block>, free: seq<Block>, lo: nat, hi: nat)
    requires Inside(used, lo, hi) && Inside(free, lo, hi) && Disjoint(used) && Spaced(free, 0) && Across(used, free)
             && lo <= hi
    ensures Sum(used) + Sum(free) <= hi - lo
  {
    var all := used + free;
    forall i, j | 0 <= i < j < |all| ensures Apart(all[i], all[j]) {
      if i >= |used| {
        assert free[i - |used|].End() + 0 <= free[j - |used|].start;
      } else if j >= |used| {
        assert Apart(used[i], free[j - |used|]);
      }
    }
    SumAppend(used, free);
    PackedSum(all, lo, hi);
  }

  // ------------------------------------------------------------ the page's space

  /** The fixed dimensions of a page. */
  datatype Dims = Dims(hdr: nat, leaf: bool, usable: nat) {
    ghost predicate Valid() { hdr + 100 <= usable < 0x10000 }
    function CellOffset(): nat { hdr + (if leaf then 8 else 12) }
  }

  /** Where the link to the `k`-th free block is stored. */
  ghost function LinkAt(g: Dims, free: seq<Block>, k: nat): nat
    requires k <= |free|
  {
    if k == 0 then g.hdr + 1 else free[k - 1].start
  }

  ghost function LinkTo(free: seq<Block>, k: nat): nat
    requires k <= |free|
  {
    if k < |free| then free[k].start else 0
  }

  /** The bytes at the free blocks link them in order and give their sizes. */
  ghost predicate FreeList(d: seq<Byte>, g: Dims, free: seq<Block>)
    requires g.Valid() && |d| == g.usable
  {
    && (forall k {:trigger LinkAt(g, free, k)} :: 0 <= k <= |free| ==>
          LinkAt(g, free, k) + 2 <= g.usable && Get2(d, LinkAt(g, free, k)) == LinkTo(free, k))
    && (forall k :: 0 <= k < |free| ==> free[k].start + 4 <= g.usable && Get2(d, free[k].start + 2) == free[k].size)
  }

  /** The blocks lie apart in the content area, whose start is in the header. */
  ghost predicate Blocks(g: Dims, low: nat, top: nat, used: seq<Block>, free: seq<Block>, sep: int) {
    && g.CellOffset() <= low <= top <= g.usable
    && Inside(used, top, g.usable) && Inside(free, top, g.usable)
    && Disjoint(used) && Spaced(free, sep) && Across(used, free)
  }

  ghost function Top(d: seq<Byte>, g: Dims): nat
    requires g.Valid() && |d| == g.usable
  {
    Get2(d, g.hdr + 5)
  }

  /** Everything about the space of a page: `low` is the end of the cell pointers, `used` the
      blocks holding cells, and the fragment byte counts what neither list accounts for. */
  ghost predicate Space(d: seq<Byte>, g: Dims, low: nat, used: seq<Block>, free: seq<Block>, sep: int) {
    && g.Valid() && |d| == g.usable
    && Blocks(g, low, Top(d, g), used, free, sep)
    && FreeList(d, g, free)
    && d[g.hdr + 7] + Top(d, g) + Sum(used) + Sum(free) == g.usable
  }

  /** Nothing outside free space and its bookkeeping has changed. */
  ghost predicate SameUsed(d: seq<Byte>, e: seq<Byte>, g: Dims, low: nat, used: seq<Block>) {
    && |d| == |e|
    && (forall x :: 0 <= x < |d| && (x <= g.hdr || g.hdr + 3 <= x < g.hdr + 5 || g.hdr + 8 <= x < low) ==> e[x] == d[x])
    && (forall i, x :: 0 <= i < |used| && used[i].start <= x < used[i].End() && 0 <= x < |d| ==> e[x] == d[x])
  }

  // ------------------------------------------------------------ taking space

  /** Unlink the `k`-th free block and hand out its front; what is left over is a fragment. */
  ghost function TakeWhole(d: seq<Byte>, g: Dims, free: seq<Block>, k: nat, n: nat): seq<Byte>
    requires g.Valid() && |d| == g.usable && FreeList(d, g, free) && k < |free|
    requires n <= free[k].size && d[g.hdr + 7] + free[k].size - n < 256 && LinkTo(free, k + 1) < 0x10000
  {
    Put2(d, LinkAt(g, free, k), LinkTo(free, k + 1))[g.hdr + 7 := d[g.hdr + 7] + free[k].size - n]
  }

  /** A used block may be added to the used ones if it lies apart from all others. */
  lemma {:induction false} AddUsed(g: Dims, low: nat, top: nat, used: seq<Block>, free: seq<Block>, sep: int, b: Block)
    requires Blocks(g, low, top, used, free, sep)
    requires top <= b.start && b.End() <= g.usable && b.size >= 4
    requires forall i :: 0 <= i < |used| ==> Apart(used[i], b)
    requires forall j :: 0 <= j < |free| ==> Apart(b, free[j])
    ensures Blocks(g, low, top, used + [b], free, sep) && Sum(used + [b]) == Sum(used) + b.size
  {
    hide Sum;
    SumAppend(used, [b]);
    SumOne(b);
  }

  lemma {:induction false} BlocksWithout(g: Dims, low: nat, top: nat, used: seq<Block>, free: seq<Block>, k: nat,
                                         n: nat)
    requires Blocks(g, low, top, used, free, |free|) && k < |free| && 4 <= n <= free[k].size
    ensures Blocks(g, low, top, used + [Block(free[k].start, n)], Without(free, k), |free| - 1)
    ensures Sum(used + [Block(free[k].start, n)]) == Sum(used) + n
    ensures Sum(Without(free, k)) == Sum(free) - free[k].size
  {
    hide Sum;
    var rest, b := Without(free, k), Block(free[k].start, n);
    SumWithout(free, k);
    assert Spaced(rest, |rest|) by {
      forall i, j | 0 <= i < j < |rest| ensures rest[i].End() + 4 <= rest[j].start {
        var i0, j0 := if i < k then i else i + 1, if j < k then j else j + 1;
        assert free[i0].End() + (if i0 < |free| then 4 else 0) <= free[j0].start;
      }
    }
    AddUsed(g, low, top, used, rest, |rest|, b);
  }

  // One index at a time.

  lemma {:induction false} LinkFact(d: seq<Byte>, g: Dims, free: seq<Block>, k: nat)
    requires g.Valid() && |d| == g.usable && FreeList(d, g, free) && k <= |free|
    ensures LinkAt(g, free, k) + 2 <= g.usable && Get2(d, LinkAt(g, free, k)) == LinkTo(free, k)
    ensures k < |free| ==> free[k].start + 4 <= g.usable && Get2(d, free[k].start + 2) == free[k].size
  {}

  lemma {:induction false} OrderFact(g: Dims, low: nat, top: nat, used: seq<Block>, free: seq<Block>, j: nat, k: nat)
    requires Blocks(g, low, top, used, free, 0) && j < k <= |free|
    ensures LinkAt(g, free, j) + 4 <= LinkAt(g, free, k) <= g.usable - 4
    ensures g.hdr + 8 <= low <= top <= LinkAt(g, free, k) == free[k - 1].start
    ensures j == 0 ==> LinkAt(g, free, j) == g.hdr + 1
  {
    if j > 0 {
      assert free[j - 1].End() <= free[k - 1].start;
    }
  }

  lemma {:induction false} UsedFact(g: Dims, low: nat, top: nat, used: seq<Block>, free: seq<Block>, i: nat, k: nat)
    requires Blocks(g, low, top, used, free, 0) && i < |used| && k < |free|
    ensures low <= top <= used[i].start && used[i].End() <= g.usable && Apart(used[i], free[k])
  {}

  /** Two-byte reads away from the bytes that changed. */
  lemma {:induction false} Get2Same(d: seq<Byte>, e: seq<Byte>, i: int)
    requires |d| == |e| && 0 <= i && i + 2 <= |d| && e[i] == d[i] && e[i + 1] == d[i + 1]
    ensures Get2(e, i) == Get2(d, i)
  {}

  /** Only the given two bytes and the fragment byte differ. */
  ghost predicate OnlyAt(d: seq<Byte>, e: seq<Byte>, g: Dims, i: nat, n: nat) {
    |d| == |e| && forall x :: 0 <= x < |d| && x != g.hdr + 7 && !(i <= x < i + n) ==> e[x] == d[x]
  }

  lemma {:induction false} OnlyAtGet2(d: seq<Byte>, e: seq<Byte>, g: Dims, i: nat, n: nat, j: nat)
    requires OnlyAt(d, e, g, i, n) && j + 2 <= |d| && (j + 2 <= i || i + n <= j)
             && (j + 2 <= g.hdr + 7 || g.hdr + 8 <= j)
    ensures Get2(e, j) == Get2(d, j)
  {}

  /** Changing bytes of one link leaves the used space alone. */
  lemma {:induction false} OnlyAtUsed(d: seq<Byte>, e: seq<Byte>, g: Dims, low: nat, top: nat, used: seq<Block>,
                                      free: seq<Block>, k: nat, i: nat, n: nat)
    requires Blocks(g, low, top, used, free, 0) && OnlyAt(d, e, g, i, n)
    requires k <= |free| && (if k == 0 then g.hdr + 1 <= i && i + n <= g.hdr + 3
                             else free[k - 1].start <= i && i + n <= free[k - 1].End())
    ensures SameUsed(d, e, g, low, used)
  {
    forall j, x | 0 <= j < |used| && used[j].start <= x < used[j].End() && 0 <= x < |d| ensures e[x] == d[x] {
      if k > 0 {
        UsedFact(g, low, top, used, free, j, k - 1);
      }
    }
  }

  // ------------------------------------------------------------ a block taken whole

  lemma {:induction false} TakeWholeBytes(d: seq<Byte>, g: Dims, free: seq<Block>, k: nat, n: nat, e: seq<Byte>)
    requires g.Valid() && |d| == g.usable && FreeList(d, g, free) && k < |free|
    requires k == 0 || g.hdr + 8 <= LinkAt(g, free, k)
    requires n <= free[k].size && d[g.hdr + 7] + free[k].size - n < 256 && LinkTo(free, k + 1) < 0x10000
    requires e == TakeWhole(d, g, free, k, n)
    ensures |e| == |d| && LinkAt(g, free, k) + 2 <= |e| && Get2(e, LinkAt(g, free, k)) == LinkTo(free, k + 1)
    ensures OnlyAt(d, e, g, LinkAt(g, free, k), 2)
    ensures e[g.hdr + 7] == d[g.hdr + 7] + free[k].size - n
  {}

  lemma {:induction false} TakeWholeLink(d: seq<Byte>, g: Dims, low: nat, top: nat, used: seq<Block>, free: seq<Block>,
                                         k: nat, e: seq<Byte>, rest: seq<Block>, j: nat)
    requires g.Valid() && |d| == |e| == g.usable && Blocks(g, low, top, used, free, 0) && FreeList(d, g, free)
    requires k < |free| && j <= |rest| && rest == Without(free, k)
    requires OnlyAt(d, e, g, LinkAt(g, free, k), 2)
    requires LinkAt(g, free, k) + 2 <= |e| && Get2(e, LinkAt(g, free, k)) == LinkTo(free, k + 1)
    ensures LinkAt(g, rest, j) + 2 <= g.usable && Get2(e, LinkAt(g, rest, j)) == LinkTo(rest, j)
    ensures j < |rest| ==> rest[j].start + 4 <= g.usable && Get2(e, rest[j].start + 2) == rest[j].size
  {
    hide FreeList, Blocks, OnlyAt, Get2;
    var j0 := if j <= k then j else j + 1;
    assert LinkAt(g, rest, j) == LinkAt(g, free, j0);
    LinkFact(d, g, free, j0);
    if j0 < k {
      OrderFact(g, low, top, used, free, j0, k);
    } else if j0 > k {
      OrderFact(g, low, top, used, free, k, j0);
    }
    if j0 > 0 {
      OrderFact(g, low, top, used, free, 0, j0);
    }
    if j0 != k {
      OnlyAtGet2(d, e, g, LinkAt(g, free, k), 2, LinkAt(g, free, j0));
    }
    if j < |rest| {
      var r := if j < k then j else j + 1;
      LinkFact(d, g, free, r);
      OrderFact(g, low, top, used, free, 0, r + 1);
      if r + 1 < k {
        OrderFact(g, low, top, used, free, r + 1, k);
      } else if r + 1 > k && k > 0 {
        OrderFact(g, low, top, used, free, k, r + 1);
      }
      OnlyAtGet2(d, e, g, LinkAt(g, free, k), 2, rest[j].start + 2);
    }
  }

  lemma {:induction false} TakeWholeLinks(d: seq<Byte>, g: Dims, low: nat, used: seq<Block>, free: seq<Block>, k: nat,
                                          n: nat)
    requires g.Valid() && |d| == g.usable && Blocks(g, low, Top(d, g), used, free, 0) && FreeList(d, g, free)
    requires k < |free| && n <= free[k].size && d[g.hdr + 7] + free[k].size - n < 256 && LinkTo(free, k + 1) < 0x10000
    ensures var e := TakeWhole(d, g, free, k, n);
            && FreeList(e, g, Without(free, k)) && SameUsed(d, e, g, low, used) && Top(e, g) == Top(d, g)
            && e[g.hdr + 7] == d[g.hdr + 7] + free[k].size - n
  {
    hide Blocks, TakeWhole, Get2, SameUsed, OnlyAt;
    var rest, e, top := Without(free, k), TakeWhole(d, g, free, k, n), Top(d, g);
    OrderFact(g, low, top, used, free, 0, k + 1);
    if k > 0 {
      OrderFact(g, low, top, used, free, 0, k);
    }
    TakeWholeBytes(d, g, free, k, n, e);
    forall j {:trigger LinkAt(g, rest, j)} | 0 <= j <= |rest|
      ensures LinkAt(g, rest, j) + 2 <= g.usable && Get2(e, LinkAt(g, rest, j)) == LinkTo(rest, j)
    {
      TakeWholeLink(d, g, low, top, used, free, k, e, rest, j);
    }
    forall j | 0 <= j < |rest|
      ensures rest[j].start + 4 <= g.usable && Get2(e, rest[j].start + 2) == rest[j].size
    {
      TakeWholeLink(d, g, low, top, used, free, k, e, rest, j);
    }
    OnlyAtGet2(d, e, g, LinkAt(g, free, k), 2, g.hdr + 5);
    Weaken(g, low, top, used, free, 0);
    OnlyAtUsed(d, e, g, low, top, used, free, k, LinkAt(g, free, k), 2);
  }

  lemma {:induction false} TakeWholeKeeps(d: seq<Byte>, g: Dims, low: nat, used: seq<Block>, free: seq<Block>, k: nat,
                                          n: nat)
    requires Space(d, g, low, used, free, |free|) && k < |free| && 4 <= n <= free[k].size
    requires d[g.hdr + 7] + free[k].size - n < 256
    ensures LinkTo(free, k + 1) < 0x10000
    ensures var e := TakeWhole(d, g, free, k, n);
            && Space(e, g, low, used + [Block(free[k].start, n)], Without(free, k), |free| - 1)
            && SameUsed(d, e, g, low, used) && e[g.hdr + 7] == d[g.hdr + 7] + free[k].size - n && Top(e, g) == Top(d, g)
  {
    hide Put2, Sum, Blocks, FreeList;
    Weaken(g, low, Top(d, g), used, free, |free|);
    BlocksWithout(g, low, Top(d, g), used, free, k, n);
    TakeWholeLinks(d, g, low, used, free, k, n);
  }

  lemma {:induction false} Weaken(g: Dims, low: nat, top: nat, used: seq<Block>, free: seq<Block>, sep: int)
    requires Blocks(g, low, top, used, free, sep)
    ensures Blocks(g, low, top, used, free, 0)
    ensures g.Valid() ==> forall k :: 0 <= k <= |free| ==> LinkTo(free, k) < 0x10000
    ensures forall k :: 0 <= k < |free| ==> top <= free[k].start && free[k].End() <= g.usable && free[k].size >= 4
    ensures forall i :: 0 <= i < |used| ==> top <= used[i].start && used[i].End() <= g.usable && used[i].size >= 4
  {}


  // ------------------------------------------------------------ the tail of a block

  ghost function TakeTail(d: seq<Byte>, g: Dims, free: seq<Block>, k: nat, n: nat): seq<Byte>
    requires g.Valid() && |d| == g.usable && k < |free| && free[k].start + 4 <= g.usable
    requires n <= free[k].size < 0x10000
  {
    Put2(d, free[k].start + 2, free[k].size - n)
  }

  lemma {:induction false} BlocksTail(g: Dims, low: nat, top: nat, used: seq<Block>, free: seq<Block>, k: nat, n: nat)
    requires Blocks(g, low, top, used, free, |free|) && k < |free| && 4 <= n && n + 4 <= free[k].size
    ensures var b, rest := Block(free[k].End() - n, n), free[k := Block(free[k].start, free[k].size - n)];
            && Blocks(g, low, top, used + [b], rest, |free|)
            && Sum(used + [b]) == Sum(used) + n && Sum(rest) == Sum(free) - n
  {
    hide Sum;
    var b, c := Block(free[k].End() - n, n), Block(free[k].start, free[k].size - n);
    var rest := free[k := c];
    SumUpdate(free, k, c);
    forall i, j | 0 <= i < j < |rest| ensures rest[i].End() + 4 <= rest[j].start {
      assert free[i].End() + (if i < |free| then 4 else 0) <= free[j].start;
    }
    forall j | 0 <= j < |rest| ensures Apart(b, rest[j]) {
      if j < k {
        assert free[j].End() + 0 <= free[k].start;
      } else if j > k {
        assert free[k].End() + 0 <= free[j].start;
      }
    }
    AddUsed(g, low, top, used, rest, |free|, b);
  }

  lemma {:induction false} TakeTailLink(d: seq<Byte>, g: Dims, low: nat, top: nat, used: seq<Block>, free: seq<Block>,
                                        k: nat, n: nat, e: seq<Byte>, rest: seq<Block>, j: nat)
    requires g.Valid() && |d| == |e| == g.usable && Blocks(g, low, top, used, free, 0) && FreeList(d, g, free)
    requires k < |free| && n <= free[k].size && rest == free[k := Block(free[k].start, free[k].size - n)] && j <= |free|
    requires OnlyAt(d, e, g, free[k].start + 2, 2) && free[k].start + 4 <= |e|
             && Get2(e, free[k].start + 2) == free[k].size - n
    ensures LinkAt(g, rest, j) + 2 <= g.usable && Get2(e, LinkAt(g, rest, j)) == LinkTo(rest, j)
    ensures j < |rest| ==> rest[j].start + 4 <= g.usable && Get2(e, rest[j].start + 2) == rest[j].size
  {
    hide FreeList, Blocks, OnlyAt, Get2;
    assert LinkAt(g, rest, j) == LinkAt(g, free, j) && LinkTo(rest, j) == LinkTo(free, j);
    LinkFact(d, g, free, j);
    OrderFact(g, low, top, used, free, 0, k + 1);
    if j > 0 {
      OrderFact(g, low, top, used, free, 0, j);
    }
    if j < k + 1 {
      OrderFact(g, low, top, used, free, j, k + 1);
    } else if j > k + 1 {
      OrderFact(g, low, top, used, free, k + 1, j);
    }
    OnlyAtGet2(d, e, g, free[k].start + 2, 2, LinkAt(g, free, j));
    if j < |free| && j != k {
      OrderFact(g, low, top, used, free, 0, j + 1);
      if j < k {
        OrderFact(g, low, top, used, free, j + 1, k + 1);
      } else {
        OrderFact(g, low, top, used, free, k + 1, j + 1);
      }
      OnlyAtGet2(d, e, g, free[k].start + 2, 2, free[j].start + 2);
    }
  }

  lemma {:induction false} TakeTailKeeps(d: seq<Byte>, g: Dims, low: nat, used: seq<Block>, free: seq<Block>, k: nat,
                                         n: nat)
    requires Space(d, g, low, used, free, |free|) && k < |free| && 4 <= n && n + 4 <= free[k].size
    ensures free[k].start + 4 <= g.usable && free[k].size < 0x10000
    ensures var e := TakeTail(d, g, free, k, n);
            && Space(e, g, low, used + [Block(free[k].End() - n, n)], free[k := Block(free[k].start, free[k].size - n)],
                     |free|)
            && SameUsed(d, e, g, low, used) && e[g.hdr + 7] == d[g.hdr + 7] && Top(e, g) == Top(d, g)
  {
    hide Sum, Blocks, Get2, SameUsed, Put2;
    var top := Top(d, g);
    Weaken(g, low, top, used, free, |free|);
    BlocksTail(g, low, top, used, free, k, n);
    var e, rest := TakeTail(d, g, free, k, n), free[k := Block(free[k].start, free[k].size - n)];
    OrderFact(g, low, top, used, free, 0, k + 1);
    forall j {:trigger LinkAt(g, rest, j)} | 0 <= j <= |rest|
      ensures LinkAt(g, rest, j) + 2 <= g.usable && Get2(e, LinkAt(g, rest, j)) == LinkTo(rest, j)
    {
      TakeTailLink(d, g, low, top, used, free, k, n, e, rest, j);
    }
    forall j | 0 <= j < |rest|
      ensures rest[j].start + 4 <= g.usable && Get2(e, rest[j].start + 2) == rest[j].size
    {
      TakeTailLink(d, g, low, top, used, free, k, n, e, rest, j);
    }
    OnlyAtGet2(d, e, g, free[k].start + 2, 2, g.hdr + 5);
    OnlyAtUsed(d, e, g, low, top, used, free, k + 1, free[k].start + 2, 2);
  }

  // ------------------------------------------------------------ the gap

  lemma {:induction false} TakeGapKeeps(d: seq<Byte>, g: Dims, low: nat, used: seq<Block>, free: seq<Block>, sep: int,
                                        n: nat)
    requires Space(d, g, low, used, free, sep) && 4 <= n && low + n <= Top(d, g)
    ensures var e := Put2(d, g.hdr + 5, Top(d, g) - n);
            && Space(e, g, low, used + [Block(Top(d, g) - n, n)], free, sep)
            && SameUsed(d, e, g, low, used) && e[g.hdr + 7] == d[g.hdr + 7]
  {
    hide Sum, Get2, Put2;
    var top, e := Top(d, g), Put2(d, g.hdr + 5, Top(d, g) - n);
    var b := Block(top - n, n);
    AddUsed(g, low, top - n, used, free, sep, b);
    FreeListElsewhere(d, e, g, low, top, used, free, sep);
  }

  /** Changing the header's content offset does not touch the free list. */
  lemma {:induction false} FreeListElsewhere(d: seq<Byte>, e: seq<Byte>, g: Dims, low: nat, top: nat, used: seq<Block>,
                                             free: seq<Block>, sep: int)
    requires g.Valid() && |d| == |e| == g.usable && Blocks(g, low, top, used, free, sep) && FreeList(d, g, free)
    requires forall x :: 0 <= x < |d| && !(g.hdr + 5 <= x < g.hdr + 8) ==> e[x] == d[x]
    ensures FreeList(e, g, free)
  {
    hide Blocks, FreeList, Get2;
    Weaken(g, low, top, used, free, sep);
    forall j | 0 <= j <= |free| ensures LinkOk(e, g, free, j) {
      LinkFact(d, g, free, j);
      if j > 0 {
        OrderFact(g, low, top, used, free, 0, j);
      }
      Get2Same(d, e, LinkAt(g, free, j));
      if j < |free| {
        OrderFact(g, low, top, used, free, 0, j + 1);
        Get2Same(d, e, free[j].start + 2);
      }
    }
    FreeListIntro(e, g, free);
  }

  /** What the free list says about its `j`-th link and block. */
  ghost predicate LinkOk(d: seq<Byte>, g: Dims, free: seq<Block>, j: nat)
    requires g.Valid() && |d| == g.usable && j <= |free|
  {
    && LinkAt(g, free, j) + 2 <= g.usable && Get2(d, LinkAt(g, free, j)) == LinkTo(free, j)
    && (j < |free| ==> free[j].start + 4 <= g.usable && Get2(d, free[j].start + 2) == free[j].size)
  }

  lemma {:induction false} FreeListIntro(d: seq<Byte>, g: Dims, free: seq<Block>)
    requires g.Valid() && |d| == g.usable && forall j :: 0 <= j <= |free| ==> LinkOk(d, g, free, j)
    ensures FreeList(d, g, free)
  {
    forall k | 0 <= k <= |free|
      ensures LinkAt(g, free, k) + 2 <= g.usable && Get2(d, LinkAt(g, free, k)) == LinkTo(free, k)
      ensures k < |free| ==> free[k].start + 4 <= g.usable && Get2(d, free[k].start + 2) == free[k].size
    {
      assert LinkOk(d, g, free, k);
    }
  }

  // ------------------------------------------------------------ giving space back

  /** Link a block into the list before its `k`-th. */
  ghost function InsertFree(d: seq<Byte>, g: Dims, free: seq<Block>, k: nat, b: Block): seq<Byte>
    requires g.Valid() && |d| == g.usable && k <= |free| && LinkAt(g, free, k) + 2 <= g.usable
    requires b.start + 4 <= g.usable && b.size < 0x10000 && LinkTo(free, k) < 0x10000
  {
    Put2(Put2(Put2(d, LinkAt(g, free, k), b.start), b.start, LinkTo(free, k)), b.start + 2, b.size)
  }

  ghost predicate Fits(free: seq<Block>, k: nat, b: Block) {
    && k <= |free|
    && (k > 0 ==> free[k - 1].start < b.start)
    && (k < |free| ==> b.start <= free[k].start)
  }

  lemma {:induction false} BlocksInsert(g: Dims, low: nat, top: nat, used: seq<Block>, b: Block, free: seq<Block>,
                                        k: nat)
    requires Blocks(g, low, top, used + [b], free, 0) && Fits(free, k, b)
    ensures Blocks(g, low, top, used, With(free, k, b), 0)
    ensures Sum(With(free, k, b)) == Sum(free) + b.size && Sum(used + [b]) == Sum(used) + b.size
  {
    hide Sum;
    var rest, all := With(free, k, b), used + [b];
    SumWith(free, k, b);
    SumAppend(used, [b]);
    SumOne(b);
    assert all[|used|] == b;
    forall i | 0 <= i < |used| ensures used[i] == all[i] && Apart(used[i], b) {
      assert Apart(all[i], all[|used|]);
    }
    forall j | 0 <= j < |free| ensures if j < k then free[j].End() <= b.start else b.End() <= free[j].start {
      assert Apart(all[|used|], free[j]);
      if j < k - 1 {
        assert free[j].End() + 0 <= free[k - 1].start;
      } else if j > k {
        assert free[k].End() + 0 <= free[j].start;
      }
    }
    forall i, j | 0 <= i < j < |rest| ensures rest[i].End() <= rest[j].start {
      if i != k && j != k {
        assert free[if i < k then i else i - 1].End() + 0 <= free[if j < k then j else j - 1].start;
      }
    }
    AcrossWith(used, b, free, k);
  }

  lemma {:induction false} AcrossWith(used: seq<Block>, b: Block, free: seq<Block>, k: nat)
    requires Across(used + [b], free) && k <= |free| && forall i :: 0 <= i < |used| ==> Apart(used[i], b)
    ensures Across(used, With(free, k, b))
  {
    var rest, all := With(free, k, b), used + [b];
    forall i, j | 0 <= i < |used| && 0 <= j < |rest| ensures Apart(used[i], rest[j]) {
      if j != k {
        assert Apart(all[i], free[if j < k then j else j - 1]);
      }
    }
  }

  lemma {:induction false} InsertFreeBytes(d: seq<Byte>, g: Dims, free: seq<Block>, k: nat, b: Block, e: seq<Byte>)
    requires g.Valid() && |d| == g.usable && k <= |free| && LinkAt(g, free, k) + 2 <= g.usable
    requires b.start + 4 <= g.usable && b.size < 0x10000 && LinkTo(free, k) < 0x10000
    requires LinkAt(g, free, k) + 2 <= b.start || b.start + 4 <= LinkAt(g, free, k)
    requires e == InsertFree(d, g, free, k, b)
    ensures |e| == |d| && Get2(e, LinkAt(g, free, k)) == b.start && Get2(e, b.start) == LinkTo(free, k)
            && Get2(e, b.start + 2) == b.size
    ensures forall x :: 0 <= x < |d| && !(LinkAt(g, free, k) <= x < LinkAt(g, free, k) + 2)
                        && !(b.start <= x < b.start + 4)
                        ==> e[x] == d[x]
  {
    var d1 := Put2(d, LinkAt(g, free, k), b.start);
    var d2 := Put2(d1, b.start, LinkTo(free, k));
    Get2Same(d1, d2, LinkAt(g, free, k));
    Get2Same(d2, e, LinkAt(g, free, k));
    Get2Same(d2, e, b.start);
  }

  lemma {:induction false} InsertFreeLink(d: seq<Byte>, g: Dims, low: nat, top: nat, used: seq<Block>, b: Block,
                                          free: seq<Block>, k: nat, e: seq<Byte>, rest: seq<Block>, j: nat)
    requires g.Valid() && |d| == |e| == g.usable && Blocks(g, low, top, used, rest, 0) && FreeList(d, g, free)
    requires k <= |free| && rest == With(free, k, b) && j <= |rest|
    requires b.start + 4 <= |d| && LinkAt(g, free, k) + 2 <= |d|
    requires Get2(e, LinkAt(g, free, k)) == b.start && Get2(e, b.start) == LinkTo(free, k)
             && Get2(e, b.start + 2) == b.size
    requires forall x :: 0 <= x < |d| && !(LinkAt(g, free, k) <= x < LinkAt(g, free, k) + 2)
                         && !(b.start <= x < b.start + 4)
                         ==> e[x] == d[x]
    ensures LinkAt(g, rest, j) + 2 <= g.usable && Get2(e, LinkAt(g, rest, j)) == LinkTo(rest, j)
    ensures j < |rest| ==> rest[j].start + 4 <= g.usable && Get2(e, rest[j].start + 2) == rest[j].size
  {
    hide FreeList, Blocks, Get2;
    assert LinkAt(g, rest, k) == LinkAt(g, free, k) && LinkAt(g, rest, k + 1) == b.start;
    if j <= k {
      assert LinkAt(g, rest, j) == LinkAt(g, free, j);
    } else {
      assert j > k + 1 ==> LinkAt(g, rest, j) == LinkAt(g, free, j - 1);
    }
    OrderFact(g, low, top, used, rest, k, k + 1);
    if j < k {
      LinkFact(d, g, free, j);
      OrderFact(g, low, top, used, rest, j, k);
      OrderFact(g, low, top, used, rest, j, k + 1);
      Get2Same(d, e, LinkAt(g, free, j));
    } else if j > k + 1 {
      LinkFact(d, g, free, j - 1);
      OrderFact(g, low, top, used, rest, k, j);
      OrderFact(g, low, top, used, rest, k + 1, j);
      Get2Same(d, e, LinkAt(g, free, j - 1));
    }
    if j < |rest| && j != k {
      var r := if j < k then j else j - 1;
      LinkFact(d, g, free, r);
      OrderFact(g, low, top, used, rest, 0, j + 1);
      if j < k {
        OrderFact(g, low, top, used, rest, j + 1, k + 1);
        if j + 1 < k {
          OrderFact(g, low, top, used, rest, j + 1, k);
        }
      } else {
        OrderFact(g, low, top, used, rest, k + 1, j + 1);
        OrderFact(g, low, top, used, rest, k, j + 1);
      }
      Get2Same(d, e, rest[j].start + 2);
    }
  }

  /** The bytes of a free block and of one link before it are not in use. */
  lemma {:induction false} LinkedUsed(d: seq<Byte>, e: seq<Byte>, g: Dims, low: nat, top: nat, used: seq<Block>,
                                      free: seq<Block>, k: nat)
    requires |d| == |e| && Blocks(g, low, top, used, free, 0) && k < |free|
    requires forall x :: 0 <= x < |d| && !(LinkAt(g, free, k) <= x < LinkAt(g, free, k) + 2)
                         && !(free[k].start <= x < free[k].start + 4)
                         ==> e[x] == d[x]
    ensures SameUsed(d, e, g, low, used)
  {
    hide Blocks;
    OrderFact(g, low, top, used, free, 0, k + 1);
    Weaken(g, low, top, used, free, 0);
    if k > 0 {
      OrderFact(g, low, top, used, free, 0, k);
    }
    forall i, x | 0 <= i < |used| && used[i].start <= x < used[i].End() && 0 <= x < |d| ensures e[x] == d[x] {
      UsedFact(g, low, top, used, free, i, k);
      if k > 0 {
        UsedFact(g, low, top, used, free, i, k - 1);
      }
    }
  }

  lemma {:induction false} InsertFreeKeeps(d: seq<Byte>, g: Dims, low: nat, used: seq<Block>, b: Block,
                                           free: seq<Block>, k: nat)
    requires Space(d, g, low, used + [b], free, 0) && Fits(free, k, b)
    ensures LinkAt(g, free, k) + 2 <= g.usable && b.start + 4 <= g.usable && b.size < 0x10000
            && LinkTo(free, k) < 0x10000
    ensures var e := InsertFree(d, g, free, k, b);
            Space(e, g, low, used, With(free, k, b), 0) && SameUsed(d, e, g, low, used)
  {
    hide Sum, Blocks, Get2, SameUsed, InsertFree;
    var top, rest := Top(d, g), With(free, k, b);
    var all := used + [b];
    assert all[|used|] == b;
    Weaken(g, low, top, all, free, 0);
    LinkFact(d, g, free, k);
    BlocksInsert(g, low, top, used, b, free, k);
    var e := InsertFree(d, g, free, k, b);
    OrderFact(g, low, top, used, rest, k, k + 1);
    OrderFact(g, low, top, used, rest, 0, k + 1);
    assert LinkAt(g, rest, k) == LinkAt(g, free, k);
    if k > 0 {
      OrderFact(g, low, top, used, rest, 0, k);
    }
    InsertFreeBytes(d, g, free, k, b, e);
    forall j | 0 <= j <= |rest| ensures LinkOk(e, g, rest, j) {
      InsertFreeLink(d, g, low, top, used, b, free, k, e, rest, j);
    }
    FreeListIntro(e, g, rest);
    Get2Same(d, e, g.hdr + 5);
    LinkedUsed(d, e, g, low, top, used, rest, k);
  }

  // ------------------------------------------------------------ joining neighbours

  ghost function Gap(free: seq<Block>, i: nat): int
    requires i + 1 < |free|
  {
    free[i + 1].start - free[i].End()
  }

  ghost function Joined(free: seq<Block>, i: nat): Block
    requires i + 1 < |free| && free[i].start <= free[i + 1].End()
  {
    Block(free[i].start, free[i + 1].End() - free[i].start)
  }

  /** Swallow the next free block and the fragment between the two. */
  ghost function Merge(d: seq<Byte>, g: Dims, free: seq<Block>, i: nat): seq<Byte>
    requires g.Valid() && |d| == g.usable && i + 1 < |free| && free[i].start + 4 <= g.usable
             && free[i + 1].End() <= g.usable
    requires free[i].start <= free[i + 1].End() && LinkTo(free, i + 2) < 0x10000
    requires 0 <= Gap(free, i) <= d[g.hdr + 7]
  {
    Put2(Put2(d[g.hdr + 7 := d[g.hdr + 7] - Gap(free, i)], free[i].start, LinkTo(free, i + 2)),
         free[i].start + 2, Joined(free, i).size)
  }

  lemma {:induction false} BlocksMerge(g: Dims, low: nat, top: nat, used: seq<Block>, free: seq<Block>, i: nat)
    requires Blocks(g, low, top, used, free, i) && i + 1 < |free| && Gap(free, i) <= 3
    ensures free[i].start <= free[i + 1].End() && 0 <= Gap(free, i)
    ensures var rest := Without(free[i := Joined(free, i)], i + 1);
            Blocks(g, low, top, used, rest, i) && Sum(rest) == Sum(free) + Gap(free, i)
  {
    hide Sum;
    assert free[i].End() + 0 <= free[i + 1].start;
    var c := Joined(free, i);
    var mid := free[i := c];
    var rest := Without(mid, i + 1);
    SumUpdate(free, i, c);
    SumWithout(mid, i + 1);
    forall a, b | 0 <= a < b < |rest| ensures rest[a].End() + (if a < i then 4 else 0) <= rest[b].start {
      var a0, b0 := if a <= i then a else a + 1, if b <= i then b else b + 1;
      assert free[a0].End() + (if a0 < i then 4 else 0) <= free[b0].start;
      if a == i {
        assert free[i + 1].End() + 0 <= free[b0].start;
      }
    }
    forall u, b | 0 <= u < |used| && 0 <= b < |rest| ensures Apart(used[u], rest[b]) {
      assert Apart(used[u], free[if b <= i then b else b + 1]);
      if b == i {
        assert Apart(used[u], free[i]) && Apart(used[u], free[i + 1]);
      }
    }
  }

  lemma {:induction false} MergeBytes(d: seq<Byte>, g: Dims, free: seq<Block>, i: nat, e: seq<Byte>)
    requires g.Valid() && |d| == g.usable && i + 1 < |free| && free[i].start + 4 <= g.usable
             && free[i + 1].End() <= g.usable
    requires free[i].start <= free[i + 1].End() && LinkTo(free, i + 2) < 0x10000 && g.hdr + 8 <= free[i].start
    requires 0 <= Gap(free, i) <= d[g.hdr + 7] && e == Merge(d, g, free, i)
    ensures |e| == |d| && Get2(e, free[i].start) == LinkTo(free, i + 2)
            && Get2(e, free[i].start + 2) == Joined(free, i).size
    ensures OnlyAt(d, e, g, free[i].start, 4) && e[g.hdr + 7] == d[g.hdr + 7] - Gap(free, i)
  {
    var d1 := Put2(d[g.hdr + 7 := d[g.hdr + 7] - Gap(free, i)], free[i].start, LinkTo(free, i + 2));
    Get2Same(d1, e, free[i].start);
  }

  lemma {:induction false} MergeLink(d: seq<Byte>, g: Dims, low: nat, top: nat, used: seq<Block>, free: seq<Block>,
                                     i: nat, e: seq<Byte>, rest: seq<Block>, j: nat)
    requires g.Valid() && |d| == |e| == g.usable && Blocks(g, low, top, used, free, 0) && FreeList(d, g, free)
    requires i + 1 < |free| && free[i].start <= free[i + 1].End() && j < |free|
    requires rest == Without(free[i := Joined(free, i)], i + 1)
    requires OnlyAt(d, e, g, free[i].start, 4) && free[i].start + 4 <= |e|
    requires Get2(e, free[i].start) == LinkTo(free, i + 2) && Get2(e, free[i].start + 2) == Joined(free, i).size
    ensures LinkAt(g, rest, j) + 2 <= g.usable && Get2(e, LinkAt(g, rest, j)) == LinkTo(rest, j)
    ensures j < |rest| ==> rest[j].start + 4 <= g.usable && Get2(e, rest[j].start + 2) == rest[j].size
  {
    hide FreeList, Blocks, OnlyAt, Get2;
    var j0 := if j <= i + 1 then j else j + 1;
    assert LinkAt(g, rest, j) == LinkAt(g, free, j0);
    assert LinkTo(rest, j) == LinkTo(free, if j <= i then j else j + 1);
    LinkFact(d, g, free, j0);
    OrderFact(g, low, top, used, free, 0, i + 1);
    if j0 > 0 {
      OrderFact(g, low, top, used, free, 0, j0);
    }
    if j0 < i + 1 {
      OrderFact(g, low, top, used, free, j0, i + 1);
      OnlyAtGet2(d, e, g, free[i].start, 4, LinkAt(g, free, j0));
    } else if j0 > i + 1 {
      OrderFact(g, low, top, used, free, i + 1, j0);
      OnlyAtGet2(d, e, g, free[i].start, 4, LinkAt(g, free, j0));
    }
    if j < |rest| && j != i {
      var r := if j < i then j else j + 1;
      LinkFact(d, g, free, r);
      OrderFact(g, low, top, used, free, 0, r + 1);
      if r < i {
        OrderFact(g, low, top, used, free, r + 1, i + 1);
      } else {
        OrderFact(g, low, top, used, free, i + 1, r + 1);
      }
      OnlyAtGet2(d, e, g, free[i].start, 4, rest[j].start + 2);
    }
  }

  lemma {:induction false} MergeKeeps(d: seq<Byte>, g: Dims, low: nat, used: seq<Block>, free: seq<Block>, i: nat)
    requires Space(d, g, low, used, free, i) && i + 1 < |free| && Gap(free, i) <= 3
    ensures free[i].start + 4 <= g.usable && free[i + 1].End() <= g.usable && free[i].start <= free[i + 1].End()
    ensures LinkTo(free, i + 2) < 0x10000 && 0 <= Gap(free, i) <= d[g.hdr + 7]
    ensures var e := Merge(d, g, free, i);
            && Space(e, g, low, used, Without(free[i := Joined(free, i)], i + 1), i)
            && SameUsed(d, e, g, low, used) && e[g.hdr + 7] == d[g.hdr + 7] - Gap(free, i)
  {
    hide Sum, Blocks, Get2, SameUsed, Merge;
    var top := Top(d, g);
    Weaken(g, low, top, used, free, i);
    BlocksMerge(g, low, top, used, free, i);
    var rest := Without(free[i := Joined(free, i)], i + 1);
    BlocksPacked(g, low, top, used, rest, i);
    var e := Merge(d, g, free, i);
    OrderFact(g, low, top, used, free, 0, i + 1);
    MergeBytes(d, g, free, i, e);
    forall j | 0 <= j <= |rest| ensures LinkOk(e, g, rest, j) {
      MergeLink(d, g, low, top, used, free, i, e, rest, j);
    }
    FreeListIntro(e, g, rest);
    OnlyAtGet2(d, e, g, free[i].start, 4, g.hdr + 5);
    OnlyAtUsed(d, e, g, low, top, used, free, i + 1, free[i].start, 4);
  }

  lemma {:induction false} BlocksPacked(g: Dims, low: nat, top: nat, used: seq<Block>, free: seq<Block>, sep: int)
    requires Blocks(g, low, top, used, free, sep)
    ensures Sum(used) + Sum(free) <= g.usable - top
  {
    hide Sum;
    assert Spaced(free, 0);
    Packed(used, free, top, g.usable);
  }

  /** Two neighbours at least four bytes apart: one more block is known to be spaced. */
  lemma {:induction false} SpacedNext(d: seq<Byte>, g: Dims, low: nat, used: seq<Block>, free: seq<Block>, i: nat)
    requires Space(d, g, low, used, free, i) && i < |free| && (i + 1 < |free| ==> Gap(free, i) >= 4)
    ensures Space(d, g, low, used, free, i + 1)
  {
    hide Sum, FreeList;
    forall a, b | 0 <= a < b < |free| ensures free[a].End() + (if a < i + 1 then 4 else 0) <= free[b].start {
      assert free[a].End() + (if a < i then 4 else 0) <= free[b].start;
      if a == i && b > i + 1 {
        assert free[i + 1].End() + 0 <= free[b].start;
      }
    }
  }

  lemma {:induction false} SpacedAll(d: seq<Byte>, g: Dims, low: nat, used: seq<Block>, free: seq<Block>, a: nat,
                                     b: nat)
    requires Space(d, g, low, used, free, a) && a >= |free| - 1 && b >= |free| - 1
    ensures Space(d, g, low, used, free, b)
  {
    hide Sum, FreeList;
    forall i, j | 0 <= i < j < |free| ensures free[i].End() + (if i < b then 4 else 0) <= free[j].start {
      assert free[i].End() + (if i < a then 4 else 0) <= free[j].start;
    }
  }

  // ------------------------------------------------------------ a free block at the front

  /** A free block at the very front of the content area becomes part of the gap. */
  ghost function DropFirst(d: seq<Byte>, g: Dims, free: seq<Block>): seq<Byte>
    requires g.Valid() && |d| == g.usable && free != [] && LinkTo(free, 1) < 0x10000 && free[0].End() < 0x10000
  {
    Put2(Put2(d, g.hdr + 1, LinkTo(free, 1)), g.hdr + 5, free[0].End())
  }

  lemma {:induction false} BlocksDropFirst(g: Dims, low: nat, top: nat, used: seq<Block>, free: seq<Block>)
    requires Blocks(g, low, top, used, free, |free|) && free != [] && free[0].start == top
    ensures Blocks(g, low, free[0].End(), used, Without(free, 0), |free| - 1)
    ensures Sum(Without(free, 0)) == Sum(free) - free[0].size
    ensures Without(free, 0) != [] ==> Without(free, 0)[0].start > free[0].End()
  {
    hide Sum;
    var rest := Without(free, 0);
    SumWithout(free, 0);
    forall i, j | 0 <= i < j < |rest| ensures rest[i].End() + 4 <= rest[j].start {
      assert free[i + 1].End() + (if i + 1 < |free| then 4 else 0) <= free[j + 1].start;
    }
    forall i | 0 <= i < |rest| ensures free[0].End() <= rest[i].start {
      assert free[0].End() + (if 0 < |free| then 4 else 0) <= free[i + 1].start;
    }
    forall i | 0 <= i < |used| ensures free[0].End() <= used[i].start {
      assert Apart(used[i], free[0]);
    }
    forall i, j | 0 <= i < |used| && 0 <= j < |rest| ensures Apart(used[i], rest[j]) {
      assert Apart(used[i], free[j + 1]);
    }
  }

  lemma {:induction false} DropFirstKeeps(d: seq<Byte>, g: Dims, low: nat, used: seq<Block>, free: seq<Block>)
    requires Space(d, g, low, used, free, |free|) && free != [] && free[0].start == Top(d, g)
    ensures LinkTo(free, 1) < 0x10000 && free[0].End() < 0x10000
    ensures var e := DropFirst(d, g, free);
            && Space(e, g, low, used, Without(free, 0), |free| - 1)
            && SameUsed(d, e, g, low, used) && e[g.hdr + 7] == d[g.hdr + 7]
            && (Without(free, 0) != [] ==> Without(free, 0)[0].start > Top(e, g))
  {
    hide Sum, Blocks, Get2, SameUsed, TakeWhole;
    var top := Top(d, g);
    Weaken(g, low, top, used, free, |free|);
    BlocksDropFirst(g, low, top, used, free);
    var e, rest := DropFirst(d, g, free), Without(free, 0);
    forall j | 0 <= j <= |rest| ensures LinkOk(e, g, rest, j) {
      LinkFact(d, g, free, j + 1);
      assert LinkTo(rest, j) == LinkTo(free, j + 1);
      if j > 0 {
        assert LinkAt(g, rest, j) == LinkAt(g, free, j + 1);
        OrderFact(g, low, top, used, free, 0, j + 1);
        Get2Same(d, e, LinkAt(g, free, j + 1));
      } else {
        Get2Same(Put2(d, g.hdr + 1, LinkTo(free, 1)), e, g.hdr + 1);
      }
      if j < |rest| {
        OrderFact(g, low, top, used, free, 0, j + 2);
        Get2Same(d, e, rest[j].start + 2);
      }
    }
    FreeListIntro(e, g, rest);
    HeaderUsed(d, e, g, low, top, used, free);
  }

  lemma {:induction false} HeaderUsed(d: seq<Byte>, e: seq<Byte>, g: Dims, low: nat, top: nat, used: seq<Block>,
                                      free: seq<Block>)
    requires |d| == |e| && Blocks(g, low, top, used, free, 0)
    requires forall x :: 0 <= x < |d| && !(g.hdr + 1 <= x < g.hdr + 3) && !(g.hdr + 5 <= x < g.hdr + 8) ==> e[x] == d[x]
    ensures SameUsed(d, e, g, low, used)
  {}

  lemma {:induction false} SameUsedJoin(d: seq<Byte>, e: seq<Byte>, f: seq<Byte>, g: Dims, low: nat, used: seq<Block>)
    requires SameUsed(d, e, g, low, used) && SameUsed(e, f, g, low, used)
    ensures SameUsed(d, f, g, low, used)
  {}

  lemma {:induction false} SpaceWeaken(d: seq<Byte>, g: Dims, low: nat, used: seq<Block>, free: seq<Block>, sep: int)
    requires Space(d, g, low, used, free, sep)
    ensures Space(d, g, low, used, free, 0)
    ensures g.Valid() && |d| == g.usable && low <= Top(d, g) <= g.usable && FreeList(d, g, free)
    ensures Blocks(g, low, Top(d, g), used, free, 0)
  {
    hide Sum;
  }
}
