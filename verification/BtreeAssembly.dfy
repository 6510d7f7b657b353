/** Reading a page's free list back, and laying out cells on an empty page. */
module BtreeAssembly {
  import opened Basics
  import opened BtreeCell
  import opened BtreeSpace
  import opened BtreeContents
  import opened BtreeDefragment
  import opened BtreePointers

  // ------------------------------------------------------------ reading the free list

  /** The blocks met so far on the free list, which goes on at `pc`. */
  ghost predicate Listed(d: seq<Byte>, g: Dims, found: seq<Block>, pc: nat)
    requires g.Valid() && |d| == g.usable
  {
    && Spaced(found, |found|)
    && (found != [] && pc > 0 ==> found[|found| - 1].End() + 4 <= pc)
    && (found != [] ==> pc == 0 || pc > found[|found| - 1].start)
    && (forall k {:trigger LinkAt(g, found, k)} :: 0 <= k <= |found| ==>
          LinkAt(g, found, k) + 2 <= g.usable && Get2(d, LinkAt(g, found, k))
          == if k < |found| then found[k].start else pc)
    && (forall k :: 0 <= k < |found| ==> found[k].start + 4 <= g.usable && Get2(d, found[k].start + 2) == found[k].size)
  }

  lemma {:induction false} NothingListed(d: seq<Byte>, g: Dims, pc: nat)
    requires g.Valid() && |d| == g.usable && pc == Get2(d, g.hdr + 1)
    ensures Listed(d, g, [], pc)
  {}

  lemma {:induction false} ListedNext(d: seq<Byte>, g: Dims, found: seq<Block>, pc: nat, next: nat, size: nat)
    requires g.Valid() && |d| == g.usable && Listed(d, g, found, pc) && 0 < pc && pc + 4 <= g.usable
    requires next == Get2(d, pc) && size == Get2(d, pc + 2) && (next == 0 || next > pc + size + 3)
    ensures Listed(d, g, found + [Block(pc, size)], next) && Sum(found + [Block(pc, size)]) == Sum(found) + size
  {
    hide Sum, Get2;
    var more := found + [Block(pc, size)];
    SumAppend(found, [Block(pc, size)]);
    SumOne(Block(pc, size));
    forall k {:trigger LinkAt(g, more, k)} | 0 <= k <= |more|
      ensures LinkAt(g, more, k) + 2 <= g.usable && Get2(d, LinkAt(g, more, k))
              == if k < |more| then more[k].start else next
    {
      if k <= |found| {
        assert LinkAt(g, more, k) == LinkAt(g, found, k);
      }
    }
    forall i, j | 0 <= i < j < |more| ensures more[i].End() + 4 <= more[j].start {
      if j < |found| {
        assert found[i].End() + (if i < |found| then 4 else 0) <= found[j].start;
      } else if i < |found| - 1 {
        assert found[i].End() + (if i < |found| then 4 else 0) <= found[|found| - 1].start;
      }
    }
  }

  /** The bytes of the page link these blocks, each more than three bytes after the one before it. */
  ghost predicate FreeChain(d: seq<Byte>, g: Dims, free: seq<Block>)
    requires g.Valid() && |d| == g.usable
  {
    FreeList(d, g, free) && Spaced(free, |free|) && forall k :: 0 <= k < |free| ==> free[k].start > 0
  }

  lemma {:induction false} AllListed(d: seq<Byte>, g: Dims, found: seq<Block>)
    requires g.Valid() && |d| == g.usable && Listed(d, g, found, 0)
    requires forall k :: 0 <= k < |found| ==> found[k].start > 0
    ensures FreeChain(d, g, found)
  {
    hide Get2;
  }

  /** The cells of a page in order are few enough, and its free list can be read. */
  lemma {:induction false} InitFacts(d: seq<Byte>, g: Dims, kind: CellKind, cells: seq<Block>, free: seq<Block>)
    requires Intact(d, g, kind, |cells|, cells, [], free)
    ensures Get2(d, g.hdr + 3) == |cells| <= (g.usable - 8) / 3
    ensures FreeChain(d, g, free)
  {
    hide Sum, Get2;
    assert cells + [] == cells;
    BlocksPacked(g, g.CellOffset() + 2 * |cells|, Top(d, g), cells, free, |free|);
    SumAtLeast(cells);
  }

  lemma {:induction false} SumAtLeast(bs: seq<Block>)
    requires forall i :: 0 <= i < |bs| ==> bs[i].size >= 4
    ensures Sum(bs) >= 4 * |bs|
  {
    if bs != [] {
      SumAtLeast(bs[..|bs| - 1]);
    }
  }

  lemma {:induction false} InitStep(d: seq<Byte>, g: Dims, free: seq<Block>, found: seq<Block>, pc: nat)
    requires g.Valid() && |d| == g.usable && FreeChain(d, g, free) && Listed(d, g, found, pc)
    requires |found| <= |free| && found == free[..|found|]
    requires pc > 0
    ensures |found| < |free| && pc == free[|found|].start && pc + 4 <= g.usable
    ensures Get2(d, pc + 2) == free[|found|].size && found + [Block(pc, Get2(d, pc + 2))] == free[..|found| + 1]
    ensures Get2(d, pc) > 0 ==> Get2(d, pc) > pc + Get2(d, pc + 2) + 3
  {
    hide Sum, Get2;
    var k := |found|;
    LinkFact(d, g, free, k);
    assert LinkAt(g, found, k) == LinkAt(g, free, k);
    LinkFact(d, g, free, k + 1);
    if k + 1 < |free| {
      assert free[k].End() + (if k < |free| then 4 else 0) <= free[k + 1].start;
    }
  }

  lemma {:induction false} InitAll(d: seq<Byte>, g: Dims, free: seq<Block>, found: seq<Block>)
    requires g.Valid() && |d| == g.usable && FreeChain(d, g, free) && Listed(d, g, found, 0)
    requires |found| <= |free| && found == free[..|found|]
    ensures found == free
  {
    hide Sum, Get2;
    var k := |found|;
    LinkFact(d, g, free, k);
    assert LinkAt(g, found, k) == LinkAt(g, free, k);
  }

  lemma {:induction false} InitEnd(d: seq<Byte>, g: Dims, kind: CellKind, cells: seq<Block>, free: seq<Block>)
    requires Intact(d, g, kind, |cells|, cells, [], free)
    ensures d[g.hdr + 7] + Top(d, g) + Sum(free) - g.CellOffset() - 2 * |cells|
            == g.usable - g.CellOffset() - 2 * |cells| - Sum(cells)
  {
    hide Sum, Get2;
    assert cells + [] == cells;
  }

  /** A page of zeros but for its flags and the start of its content. */
  lemma {:induction false} ZeroedIntact(d: seq<Byte>, g: Dims, kind: CellKind)
    requires g.Valid() && kind.Valid() && kind.leaf == g.leaf && kind.usable == g.usable && |d| == g.usable
    requires forall x :: g.hdr < x < g.hdr + 5 || x == g.hdr + 7 ==> d[x] == 0
    requires Get2(d, g.hdr + 5) == g.usable
    ensures Intact(d, g, kind, 0, [], [], []) && d[g.hdr + 7] == 0 && Top(d, g) == g.usable
  {
    hide Sum, CellSize;
    SumNone();
    FreshSpace(d, g, g.CellOffset(), []);
    var none: seq<Block> := [];
    assert none + none == none;
  }

  // ------------------------------------------------------------ laying out cells

  ghost function TotalSize(cs: seq<seq<Byte>>): nat {
    if cs == [] then 0 else TotalSize(cs[..|cs| - 1]) + |cs[|cs| - 1]|
  }

  /** What remains of the space taken for all cells; never one to three bytes. */
  ghost function Rest(body: nat, size: nat): seq<Block> {
    if size == 0 then [] else [Block(body, size)]
  }

  lemma {:induction false} TotalStep(cs: seq<seq<Byte>>, n: nat)
    requires n < |cs|
    ensures TotalSize(cs[..n + 1]) == TotalSize(cs[..n]) + |cs[n]|
  {
    assert cs[..n + 1][..n] == cs[..n];
  }

  lemma {:induction false} TotalRest(cs: seq<seq<Byte>>, n: nat)
    requires n <= |cs| && forall j :: 0 <= j < |cs| ==> |cs[j]| >= 4
    ensures TotalSize(cs[..n]) + 4 * (|cs| - n) <= TotalSize(cs)
    decreases |cs| - n
  {
    if n < |cs| {
      TotalStep(cs, n);
      TotalRest(cs, n + 1);
    } else {
      assert cs[..n] == cs;
    }
  }

  /** Making room for pointers on an empty page. */
  lemma {:induction false} StartAssembly(d: seq<Byte>, g: Dims, kind: CellKind, n: nat, e: seq<Byte>)
    requires Intact(d, g, kind, 0, [], [], []) && g.CellOffset() + 2 * n <= Top(d, g) && n < 0x10000
    requires e == Put2(d, g.hdr + 3, n)
    ensures Intact(e, g, kind, n, [], [], []) && Top(e, g) == Top(d, g) && e[g.hdr + 7] == d[g.hdr + 7]
    ensures Fixed(e, g) == Fixed(d, g)
  {
    hide Sum, Get2, Space;
    var none: seq<Block> := [];
    assert none + none == none;
    assert OnlyPointers(d, e, g);
    PointerArea(d, e, g, g.CellOffset(), g.CellOffset() + 2 * n, [], []);
  }

  lemma {:induction false} EmptyTop(d: seq<Byte>, g: Dims, kind: CellKind)
    requires Intact(d, g, kind, 0, [], [], []) && d[g.hdr + 7] == 0
    ensures Top(d, g) == g.usable
  {
    SumNone();
  }

  /** Splitting the front off a block that has been handed out. */
  lemma {:induction false} SplitFront(d: seq<Byte>, g: Dims, low: nat, used: seq<Block>, free: seq<Block>, body: nat,
                                      size: nat, a: nat)
    requires Space(d, g, low, used + [Block(body, size)], free, |free|) && 4 <= a <= size
             && (a == size || a + 4 <= size)
    ensures Space(d, g, low, used + [Block(body, a)] + Rest(body + a, size - a), free, |free|)
  {
    hide Sum, FreeList, Get2, Spaced;
    var all, b, r := used + [Block(body, size)], Block(body, a), Rest(body + a, size - a);
    var more := used + [b] + r;
    assert all[|used|] == Block(body, size);
    SumAppend(used, [Block(body, size)]);
    SumOne(Block(body, size));
    SumAppend(used + [b], r);
    SumAppend(used, [b]);
    SumOne(b);
    if a < size {
      SumOne(r[0]);
    } else {
      SumNone();
    }
    forall i | 0 <= i < |more| ensures Top(d, g) <= more[i].start && more[i].End() <= g.usable && more[i].size >= 4 {
      if i < |used| {
        assert more[i] == all[i];
      }
    }
    forall i, j | 0 <= i < j < |more| ensures Apart(more[i], more[j]) {
      assert i < |used| ==> Apart(all[i], all[if j < |used| then j else |used|]);
    }
    forall i, j | 0 <= i < |more| && 0 <= j < |free| ensures Apart(more[i], free[j]) {
      assert Apart(all[if i < |used| then i else |used|], free[j]);
    }
  }

  /** One more pointer and cell written into the space kept for them. */
  ghost function AssembleOne(d: seq<Byte>, g: Dims, k: nat, body: nat, c: seq<Byte>): seq<Byte>
    requires g.CellOffset() + 2 * k + 2 <= |d| && body + |c| <= |d| && body < 0x10000
  {
    Overwrite(Put2(d, g.CellOffset() + 2 * k, body), body, c)
  }

  lemma {:induction false} AssembleStep(d: seq<Byte>, g: Dims, kind: CellKind, n: nat, cells: seq<Block>,
                                        free: seq<Block>, body: nat, size: nat, c: seq<Byte>, e: seq<Byte>)
    requires Intact(d, g, kind, n, cells, [Block(body, size)], free) && |cells| < n
    requires CellSize(kind, c) == |c| <= size && (|c| == size || |c| + 4 <= size)
    requires g.CellOffset() + 2 * |cells| + 2 <= |d| && body + |c| <= |d| && body < 0x10000
    requires e == AssembleOne(d, g, |cells|, body, c)
    ensures Intact(e, g, kind, n, cells + [Block(body, |c|)], Rest(body + |c|, size - |c|), free)
    ensures AllWithin(cells, |d|) && AllWithin(cells + [Block(body, |c|)], |e|)
    ensures ContentsOf(e, cells + [Block(body, |c|)]) == ContentsOf(d, cells) + [c] && Fixed(e, g) == Fixed(d, g)
  {
    hide Sum, Get2, Space, CellSize, Put2, Overwrite, AssembleOne, SameUsed, Pointers;
    var low, b, r, k := g.CellOffset() + 2 * n, Block(body, |c|), Rest(body + |c|, size - |c|), |cells|;
    var more := cells + [b];
    var all := more + r;
    var at := g.CellOffset() + 2 * k;
    SplitFront(d, g, low, cells, free, body, size, |c|);
    SpaceWeaken(d, g, low, all, free, |free|);
    var p := AssemblePut(d, g, k, body, c, e);
    assert OnlyPointers(d, p, g) by {
      assert at + 2 <= low <= Top(d, g);
    }
    PointerArea(d, p, g, low, low, all, free);
    SpaceWeaken(p, g, low, all, free, |free|);
    assert all[k] == b;
    SameFixed(d, e, g);
    WriteUsed(p, e, g, low, all, free, |free|, k);
    AssembledPointers(d, p, e, g, cells, n, b);
    AssembledSlices(d, p, e, g, low, kind, cells, b, r, free, c);
  }

  /** The page after the pointer, before the cell itself. */
  lemma {:induction false} AssemblePut(d: seq<Byte>, g: Dims, k: nat, body: nat, c: seq<Byte>, e: seq<Byte>)
    returns (p: seq<Byte>)
    requires g.CellOffset() + 2 * k + 2 <= |d| && body + |c| <= |d| && body < 0x10000
             && e == AssembleOne(d, g, k, body, c)
    ensures p == Put2(d, g.CellOffset() + 2 * k, body) && |p| == |d| == |e|
    ensures forall x :: 0 <= x < |d| && x != g.CellOffset() + 2 * k && x != g.CellOffset() + 2 * k + 1 ==> p[x] == d[x]
    ensures Get2(p, g.CellOffset() + 2 * k) == body
    ensures forall x :: 0 <= x < |d| && !(body <= x < body + |c|) ==> e[x] == p[x]
    ensures e[body..body + |c|] == c
  {
    p := Put2(d, g.CellOffset() + 2 * k, body);
  }

  lemma {:induction false} AssembledPointers(d: seq<Byte>, p: seq<Byte>, e: seq<Byte>, g: Dims, cells: seq<Block>,
                                             n: nat, b: Block)
    requires Pointers(d, g, cells) && |p| == |d| == |e| && |cells| < n && g.CellOffset() + 2 * n <= b.start
             && b.End() <= |d|
    requires forall x :: 0 <= x < |d| && x != g.CellOffset() + 2 * |cells| && x != g.CellOffset() + 2 * |cells| + 1
                         ==> p[x] == d[x]
    requires Get2(p, g.CellOffset() + 2 * |cells|) == b.start
    requires forall x :: 0 <= x < |d| && !(b.start <= x < b.End()) ==> e[x] == p[x]
    ensures Pointers(e, g, cells + [b]) && Get2(e, g.hdr + 3) == Get2(d, g.hdr + 3)
  {
    hide Get2, Pointers;
    var more := cells + [b];
    Get2Same(d, p, g.hdr + 3);
    Get2Same(p, e, g.hdr + 3);
    forall j | 0 <= j < |more| ensures Get2(e, g.CellOffset() + 2 * j) == more[j].start {
      Get2Same(p, e, g.CellOffset() + 2 * j);
      if j < |cells| {
        PointerFact(d, g, cells, j);
        Get2Same(d, p, g.CellOffset() + 2 * j);
      }
    }
    PointersIntro(e, g, more);
  }

  lemma {:induction false} AssembledSlices(d: seq<Byte>, p: seq<Byte>, e: seq<Byte>, g: Dims, low: nat, kind: CellKind,
                                           cells: seq<Block>, b: Block, r: seq<Block>, free: seq<Block>, c: seq<Byte>)
    requires Space(d, g, low, cells + [b] + r, free, |free|) && |p| == |d| == |e| && b.End() <= |d| && b.size == |c|
    requires CellsFit(d, kind, cells) && CellSize(kind, c) == |c|
    requires forall x :: low <= x < |d| ==> p[x] == d[x]
    requires forall x :: 0 <= x < |d| && !(b.start <= x < b.End()) ==> e[x] == p[x]
    requires e[b.start..b.End()] == c
    ensures CellsFit(e, kind, cells + [b])
    ensures ContentsOf(e, cells + [b]) == ContentsOf(d, cells) + [c]
  {
    hide Sum, Get2, FreeList, CellSize;
    var more, all := cells + [b], cells + [b] + r;
    assert all[|cells|] == b;
    forall j | 0 <= j < |cells| ensures Slice(e, cells[j]) == Slice(d, cells[j]) {
      assert all[j] == cells[j];
      assert Apart(all[j], all[|cells|]);
      assert low <= cells[j].start;
    }
    assert Slice(e, b) == c;
    assert forall j :: 0 <= j < |more| ==> more[j] == if j < |cells| then cells[j] else b;
  }

  lemma {:induction false} OverwriteIs(d: seq<Byte>, to: nat, bytes: seq<Byte>, e: seq<Byte>)
    requires to + |bytes| <= |d| && |e| == |d|
    requires forall x :: 0 <= x < |d| ==> e[x] == if to <= x < to + |bytes| then bytes[x - to] else d[x]
    ensures e == Overwrite(d, to, bytes)
  {}

  lemma {:induction false} RestInside(d: seq<Byte>, g: Dims, kind: CellKind, n: nat, cells: seq<Block>, b: Block,
                                      free: seq<Block>)
    requires Intact(d, g, kind, n, cells, [b], free)
    ensures g.CellOffset() + 2 * n <= b.start && b.End() <= |d| < 0x10000
  {
    hide Sum, Get2, FreeList;
    assert (cells + [b])[|cells|] == b;
  }

  lemma {:induction false} NoTotal(cs: seq<seq<Byte>>)
    ensures TotalSize(cs[..0]) == 0
  {}

  lemma {:induction false} RestWhole(body: nat, size: nat)
    ensures Rest(body, size) == if size == 0 then [] else [Block(body, size)]
  {}
}
