/** Moving all cells of a page to its end. */
module BtreeDefragment {
  import opened Basics
  import opened BtreeCell
  import opened BtreeSpace
  import opened BtreeContents

  ghost function Overwrite(d: seq<Byte>, to: nat, bytes: seq<Byte>): (r: seq<Byte>)
    requires to + |bytes| <= |d|
    ensures |r| == |d|
    ensures forall x :: 0 <= x < |d| ==> r[x] == if to <= x < to + |bytes| then bytes[x - to] else d[x]
  {
    d[..to] + bytes + d[to + |bytes|..]
  }

  lemma {:induction false} SumStep(cells: seq<Block>, n: nat)
    requires n < |cells|
    ensures Sum(cells[..n + 1]) == Sum(cells[..n]) + cells[n].size
    ensures Sum(cells[..n + 1]) <= Sum(cells)
  {
    assert cells[..n + 1][..n] == cells[..n];
    assert cells == cells[..n + 1] + cells[n + 1..];
    SumAppend(cells[..n + 1], cells[n + 1..]);
  }

  /** The first |moved| cells of `d0` have new places in `d`, from `brk` on; `low` is the end of the pointers. */
  ghost predicate Moved(d0: seq<Byte>, d: seq<Byte>, g: Dims, cells: seq<Block>, moved: seq<Block>, brk: nat) {
    && |moved| <= |cells| && |d| == |d0| && AllWithin(cells, |d0|)
    && g.CellOffset() + 2 * |cells| <= brk <= g.usable == |d|
    && Inside(moved, brk, g.usable) && Disjoint(moved)
    && (forall x :: 0 <= x < g.CellOffset() ==> d[x] == d0[x])
    && (forall j :: 0 <= j < |cells| ==> Get2(d, g.CellOffset() + 2 * j)
                                         == if j < |moved| then moved[j].start else cells[j].start)
    && (forall j :: 0 <= j < |moved| ==> moved[j].size == cells[j].size && Slice(d, moved[j]) == Slice(d0, cells[j]))
    && brk + Sum(moved) == g.usable && Sum(moved) == Sum(cells[..|moved|])
  }

  /** One more cell: its bytes copied to below `brk`, and its pointer redirected. */
  ghost function MoveOne(d: seq<Byte>, d0: seq<Byte>, g: Dims, cells: seq<Block>, n: nat, to: nat): seq<Byte>
    requires n < |cells| && |d| == |d0| && AllWithin(cells, |d0|) && to + cells[n].size <= |d| && to < 0x10000
    requires g.CellOffset() + 2 * |cells| <= |d|
  {
    Put2(Overwrite(d, to, Slice(d0, cells[n])), g.CellOffset() + 2 * n, to)
  }

  /** Only two bytes of a pointer, and the bytes of a cell, differ. */
  ghost predicate BesidesCell(d: seq<Byte>, e: seq<Byte>, at: nat, to: nat, size: nat) {
    && |e| == |d|
    && forall x :: 0 <= x < |d| && !(at <= x < at + 2) && !(to <= x < to + size) ==> e[x] == d[x]
  }

  lemma {:induction false} BesidesGet2(d: seq<Byte>, e: seq<Byte>, at: nat, to: nat, size: nat, i: nat)
    requires BesidesCell(d, e, at, to, size) && (i + 2 <= at || at + 2 <= i) && i + 2 <= to <= |d|
    ensures Get2(e, i) == Get2(d, i)
  {}

  lemma {:induction false} BesidesSlice(d: seq<Byte>, e: seq<Byte>, at: nat, to: nat, size: nat, b: Block)
    requires BesidesCell(d, e, at, to, size) && at + 2 <= b.start && to + size <= b.start && b.End() <= |d|
    ensures Slice(e, b) == Slice(d, b)
  {}

  lemma {:induction false} MoreBlocks(moved: seq<Block>, b: Block, brk: nat, hi: nat)
    requires Inside(moved, brk, hi) && Disjoint(moved) && b.End() == brk <= hi && b.size >= 4
    ensures Inside(moved + [b], b.start, hi) && Disjoint(moved + [b]) && Sum(moved + [b]) == Sum(moved) + b.size
  {
    hide Sum;
    SumAppend(moved, [b]);
    SumOne(b);
  }

  lemma {:induction false} MoveOneBytes(d: seq<Byte>, d0: seq<Byte>, g: Dims, cells: seq<Block>, n: nat, to: nat,
                                        e: seq<Byte>)
    requires n < |cells| && |d| == |d0| && AllWithin(cells, |d0|) && to + cells[n].size <= |d| && to < 0x10000
    requires g.CellOffset() + 2 * |cells| <= to && e == MoveOne(d, d0, g, cells, n, to)
    ensures BesidesCell(d, e, g.CellOffset() + 2 * n, to, cells[n].size)
    ensures Get2(e, g.CellOffset() + 2 * n) == to
    ensures Slice(e, Block(to, cells[n].size)) == Slice(d0, cells[n])
  {}

  lemma {:induction false} MoveStep(d0: seq<Byte>, d: seq<Byte>, g: Dims, cells: seq<Block>, moved: seq<Block>,
                                    brk: nat, e: seq<Byte>)
    requires Moved(d0, d, g, cells, moved, brk) && |moved| < |cells| && g.Valid()
    requires var n := |moved|; cells[n].size >= 4 && g.CellOffset() + 2 * |cells| + cells[n].size <= brk
    requires e == MoveOne(d, d0, g, cells, |moved|, brk - cells[|moved|].size)
    ensures Moved(d0, e, g, cells, moved + [Block(brk - cells[|moved|].size, cells[|moved|].size)],
                  brk - cells[|moved|].size)
  {
    hide Sum, Get2, MoveOne, Slice, BesidesCell, Inside, Disjoint;
    var n := |moved|;
    var at, size := g.CellOffset() + 2 * n, cells[n].size;
    var to := brk - size;
    var b := Block(to, size);
    var more := moved + [b];
    MoveOneBytes(d, d0, g, cells, n, to, e);
    SumStep(cells, n);
    MoreBlocks(moved, b, brk, g.usable);
    forall j | 0 <= j < |cells| ensures Get2(e, g.CellOffset() + 2 * j)
        == if j < |more| then more[j].start else cells[j].start {
      if j != n {
        BesidesGet2(d, e, at, to, size, g.CellOffset() + 2 * j);
      }
    }
    forall j | 0 <= j < |more| ensures more[j].End() <= |e| {
      Above(more, to, g.usable, j);
    }
    forall j | 0 <= j < |more| ensures more[j].size == cells[j].size && Slice(e, more[j]) == Slice(d0, cells[j]) {
      if j < n {
        Above(moved, brk, g.usable, j);
        BesidesSlice(d, e, at, to, size, moved[j]);
      }
    }
    forall x | 0 <= x < g.CellOffset() ensures e[x] == d0[x] {
      BesidesByte(d, e, at, to, size, x);
    }
    assert |more| == n + 1;
  }

  lemma {:induction false} BesidesByte(d: seq<Byte>, e: seq<Byte>, at: nat, to: nat, size: nat, x: nat)
    requires BesidesCell(d, e, at, to, size) && x < at && x < to <= |d| && x < |d|
    ensures e[x] == d[x]
  {}

  lemma {:induction false} Above(bs: seq<Block>, lo: nat, hi: nat, j: nat)
    requires Inside(bs, lo, hi) && j < |bs|
    ensures lo <= bs[j].start && bs[j].End() <= hi
  {}

  lemma {:induction false} NothingMoved(d0: seq<Byte>, g: Dims, kind: CellKind, cells: seq<Block>, free: seq<Block>)
    requires Intact(d0, g, kind, |cells|, cells, [], free)
    ensures AllWithin(cells, |d0|) && Moved(d0, d0, g, cells, [], g.usable)
    ensures forall j :: 0 <= j < |cells| ==> cells[j].size >= 4 && Top(d0, g) <= cells[j].start
    ensures g.CellOffset() + 2 * |cells| <= g.usable - Sum(cells)
    ensures g.CellOffset() + 2 * |cells| <= Top(d0, g) <= g.usable
  {
    hide CellsFit, FreeList, Get2;
    assert cells + [] == cells;
    assert cells[..0] == [];
    BlocksPacked(g, g.CellOffset() + 2 * |cells|, Top(d0, g), cells, free, |free|);
  }

  /** All cells moved, and the header told. */
  ghost function Finish(d: seq<Byte>, g: Dims, low: nat, brk: nat): seq<Byte>
    requires g.Valid() && |d| == g.usable && low <= brk <= g.usable
  {
    Overwrite(Put2(d, g.hdr + 5, brk)[g.hdr + 1 := 0][g.hdr + 2 := 0][g.hdr + 7 := 0], low, seq(brk - low, i => 0))
  }

  lemma {:induction false} FinishBytes(d: seq<Byte>, g: Dims, low: nat, brk: nat, e: seq<Byte>)
    requires g.Valid() && |d| == g.usable && g.CellOffset() <= low <= brk <= g.usable && e == Finish(d, g, low, brk)
    ensures |e| == |d| && Get2(e, g.hdr + 1) == 0 && e[g.hdr + 7] == 0 && Get2(e, g.hdr + 5) == brk
    ensures Get2(e, g.hdr + 3) == Get2(d, g.hdr + 3)
    ensures forall x :: 0 <= x <= g.hdr || (g.hdr + 8 <= x < |d| && !(low <= x < brk)) ==> e[x] == d[x]
  {}

  lemma {:induction false} Finished(d0: seq<Byte>, d: seq<Byte>, g: Dims, kind: CellKind, cells: seq<Block>,
                                    free: seq<Block>, moved: seq<Block>, brk: nat, e: seq<Byte>)
    requires Intact(d0, g, kind, |cells|, cells, [], free) && Moved(d0, d, g, cells, moved, brk) && |moved| == |cells|
    requires e == Finish(d, g, g.CellOffset() + 2 * |cells|, brk)
    ensures Intact(e, g, kind, |moved|, moved, [], []) && AllWithin(cells, |d0|)
            && ContentsOf(e, moved) == ContentsOf(d0, cells)
    ensures e[g.hdr + 7] == 0 && Top(e, g) == brk && Sum(moved) == Sum(cells) && Fixed(e, g) == Fixed(d0, g)
  {
    hide Sum, Finish, Get2, CellSize;
    var low := g.CellOffset() + 2 * |cells|;
    FinishBytes(d, g, low, brk, e);
    SameFixed(d0, e, g);
    assert cells[..|cells|] == cells;
    assert moved + [] == moved;
    Get2Same(d0, d, g.hdr + 3);
    forall j | 0 <= j < |cells|
      ensures Get2(e, g.CellOffset() + 2 * j) == moved[j].start && Slice(e, moved[j]) == Slice(d0, cells[j])
    {
      Get2Same(d, e, g.CellOffset() + 2 * j);
      assert brk <= moved[j].start;
      assert Slice(e, moved[j]) == Slice(d, moved[j]);
    }
    assert AllWithin(moved, |e|);
    FreshSpace(e, g, low, moved);
  }

  lemma {:induction false} FinishIs(d: seq<Byte>, g: Dims, low: nat, brk: nat, e: seq<Byte>)
    requires g.Valid() && |d| == |e| == g.usable && g.CellOffset() <= low <= brk <= g.usable
    requires forall x :: 0 <= x < |d| ==>
               e[x] == if low <= x < brk || x == g.hdr + 1 || x == g.hdr + 2 || x == g.hdr + 7 then 0
                       else Put2(d, g.hdr + 5, brk)[x]
    ensures e == Finish(d, g, low, brk)
  {
    hide Put2;
  }

  lemma {:induction false} MovedFact(d0: seq<Byte>, d: seq<Byte>, g: Dims, cells: seq<Block>, moved: seq<Block>,
                                     brk: nat)
    requires Moved(d0, d, g, cells, moved, brk)
    ensures g.CellOffset() + 2 * |cells| <= brk <= g.usable == |d| == |d0|
    ensures brk + Sum(moved) == g.usable && Sum(moved) == Sum(cells[..|moved|]) && |moved| <= |cells|
    ensures |moved| < |cells| ==> Sum(moved) + cells[|moved|].size <= Sum(cells)
    ensures |moved| < |cells| ==> Get2(d, g.CellOffset() + 2 * |moved|) == cells[|moved|].start
  {
    hide Sum, Get2;
    if |moved| < |cells| {
      SumStep(cells, |moved|);
    }
  }

  lemma {:induction false} SliceCopied(d: seq<Byte>, e: seq<Byte>, top: nat, b: Block)
    requires |d| == |e| && top <= b.start && b.End() <= |d| && forall x :: top <= x < |d| ==> e[x] == d[x]
    ensures e[b.start..b.End()] == Slice(d, b) <= e[b.start..]
  {
    assert e[b.start..][..b.size] == e[b.start..b.End()];
  }

  lemma {:induction false} IntactSizes(d: seq<Byte>, g: Dims, kind: CellKind, cells: seq<Block>, extra: seq<Block>,
                                       free: seq<Block>)
    requires Intact(d, g, kind, |cells|, cells, extra, free)
    ensures g.Valid() && |d| == g.usable && kind.Valid() && AllWithin(cells, |d|) && Get2(d, g.hdr + 3) == |cells|
    ensures forall i :: 0 <= i < |cells| ==> CellSize(kind, Slice(d, cells[i])) == cells[i].size
  {}

  /** Space with no free blocks and no fragments. */
  lemma {:induction false} FreshSpace(e: seq<Byte>, g: Dims, low: nat, used: seq<Block>)
    requires g.Valid() && |e| == g.usable && g.CellOffset() <= low <= Top(e, g) <= g.usable
    requires Inside(used, Top(e, g), g.usable) && Disjoint(used)
    requires Get2(e, g.hdr + 1) == 0 && e[g.hdr + 7] == 0 && Top(e, g) + Sum(used) == g.usable
    ensures Space(e, g, low, used, [], 0)
  {
    hide Sum, Get2;
    SumNone();
  }

  lemma {:induction false} SumNone()
    ensures Sum([]) == 0
  {}
}
