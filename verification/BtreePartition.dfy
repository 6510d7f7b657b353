/** Every byte of a page belongs to the header and pointers, the gap, one cell, one free
    block, or is one of the fragments the header counts. */
module BtreePartition {
  import opened Basics
  import opened BtreeCell
  import opened BtreeSpace
  import opened BtreeContents

  lemma {:induction false} CoverBetween(bs: seq<Block>, lo: nat, hi: nat)
    requires Inside(bs, lo, hi)
    ensures Cover(bs) <= Range(lo, hi)
  {
    forall x | x in Cover(bs) ensures x in Range(lo, hi) {
      InCover(bs, x);
    }
  }

  lemma {:induction false} CoversApart(xs: seq<Block>, ys: seq<Block>)
    requires Across(xs, ys)
    ensures Cover(xs) !! Cover(ys)
  {
    forall i, j | 0 <= i < |xs| && 0 <= j < |ys| ensures xs[i].End() <= ys[j].start || ys[j].End() <= xs[i].start {
      assert Apart(xs[i], ys[j]);
    }
    forall x | x in Cover(xs) ensures x !in Cover(ys) {
      InCover(xs, x);
      InCover(ys, x);
    }
  }

  /** The bytes in none of the other parts. */
  ghost function Fragments(d: seq<Byte>, g: Dims, cells: seq<Block>, free: seq<Block>): set<int>
    requires g.Valid() && |d| == g.usable
  {
    Range(Top(d, g), g.usable) - Cover(cells) - Cover(free)
  }

  /** The six parts of a page; `low` is the end of the header and cell pointers. */
  lemma {:induction false} PagePartition(d: seq<Byte>, g: Dims, kind: CellKind, cells: seq<Block>, free: seq<Block>)
    requires Intact(d, g, kind, |cells|, cells, [], free)
    ensures g.CellOffset() + 2 * |cells| <= Top(d, g) <= g.usable
    ensures Parted(g.CellOffset() + 2 * |cells|, Top(d, g), g.usable, Cover(cells), Cover(free),
                   Fragments(d, g, cells, free))
    ensures |Fragments(d, g, cells, free)| == d[g.hdr + 7] <= 62
    ensures forall j :: 0 <= j < |free| - 1 ==> free[j].End() + 4 <= free[j + 1].start
  {
    hide Sum, Get2, Space, CellsFit, Pointers, Cover, Parted, Fragments;
    assert cells + [] == cells;
    var low := g.CellOffset() + 2 * |cells|;
    SpaceWeaken(d, g, low, cells, free, |free|);
    SpaceParted(d, g, low, cells, free);
    FragmentCount(d, g, low, cells, free);
  }

  lemma {:induction false} SpaceParted(d: seq<Byte>, g: Dims, low: nat, cells: seq<Block>, free: seq<Block>)
    requires Space(d, g, low, cells, free, |free|)
    ensures Parted(low, Top(d, g), g.usable, Cover(cells), Cover(free), Fragments(d, g, cells, free))
    ensures forall j :: 0 <= j < |free| - 1 ==> free[j].End() + 4 <= free[j + 1].start
  {
    hide Sum, Get2, FreeList, Cover, Parted;
    CoverBetween(cells, Top(d, g), g.usable);
    CoverBetween(free, Top(d, g), g.usable);
    CoversApart(cells, free);
    forall j | 0 <= j < |free| - 1 ensures free[j].End() + 4 <= free[j + 1].start {
      assert free[j].End() + (if j < |free| then 4 else 0) <= free[j + 1].start;
    }
    FiveParts(low, Top(d, g), g.usable, Cover(cells), Cover(free), Fragments(d, g, cells, free));
  }

  /** Bytes below `low`, the gap up to `top`, and three more sets make up the page without overlap. */
  ghost predicate Parted(low: nat, top: nat, end: nat, a: set<int>, b: set<int>, rest: set<int>) {
    && Range(0, end) == Range(0, low) + Range(low, top) + a + b + rest
    && Range(0, low) !! Range(low, top) !! a !! b !! rest
  }

  lemma {:induction false} FiveParts(low: nat, top: nat, end: nat, a: set<int>, b: set<int>, rest: set<int>)
    requires low <= top <= end && a <= Range(top, end) && b <= Range(top, end) && a !! b
             && rest == Range(top, end) - a - b
    ensures Parted(low, top, end, a, b, rest)
  {
    assert Range(0, end) == Range(0, low) + Range(low, top) + Range(top, end);
  }

  lemma {:induction false} FragmentCount(d: seq<Byte>, g: Dims, low: nat, cells: seq<Block>, free: seq<Block>)
    requires Space(d, g, low, cells, free, |free|)
    ensures |Fragments(d, g, cells, free)| == d[g.hdr + 7]
  {
    hide Sum, Get2, FreeList, Cover;
    var top := Top(d, g);
    CoverBetween(cells, top, g.usable);
    CoverBetween(free, top, g.usable);
    CoversApart(cells, free);
    CoverSize(cells);
    forall i, j | 0 <= i < j < |free| ensures Apart(free[i], free[j]) {
      assert free[i].End() + (if i < |free| then 4 else 0) <= free[j].start;
    }
    CoverSize(free);
    RangeSize(top, g.usable);
    var all := Range(top, g.usable);
    assert all == (Cover(cells) + Cover(free)) + Fragments(d, g, cells, free);
    assert |Cover(cells) + Cover(free)| == |Cover(cells)| + |Cover(free)|;
  }
}
