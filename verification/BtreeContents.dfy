/** What a page holds: cell pointers, and the cells they lead to. */
module BtreeContents {
  import opened Basics
  import opened BtreeCell
  import opened BtreeSpace

  lemma {:induction false} InsertThenRemove<T>(s: seq<T>, i: nat, x: T)
    requires i <= |s|
    ensures RemoveAt(InsertAt(s, i, x), i) == s && InsertAt(s, i, x)[i] == x && |InsertAt(s, i, x)| == |s| + 1
  {}

  ghost predicate Pointers(d: seq<Byte>, g: Dims, cells: seq<Block>) {
    && g.CellOffset() + 2 * |cells| <= |d|
    && forall i :: 0 <= i < |cells| ==> Get2(d, g.CellOffset() + 2 * i) == cells[i].start
  }

  ghost function Slice(d: seq<Byte>, b: Block): (r: seq<Byte>)
    requires b.End() <= |d|
    ensures |r| == b.size
  {
    d[b.start..b.start + b.size]
  }

  /** The right child of an interior page, in its header. */
  function RightOf(d: seq<Byte>, g: Dims): (r: seq<Byte>)
    requires g.CellOffset() <= |d|
    ensures |r| == if g.leaf then 0 else 4
  {
    d[g.hdr + 8..g.CellOffset()]
  }

  /** What stays as it is when cells come and go: the bytes before the header and the flags, and the right child. */
  ghost function Fixed(d: seq<Byte>, g: Dims): (seq<Byte>, seq<Byte>)
    requires g.CellOffset() <= |d|
  {
    (d[..g.hdr + 1], RightOf(d, g))
  }

  lemma {:induction false} SameFixed(d: seq<Byte>, e: seq<Byte>, g: Dims)
    requires g.CellOffset() <= |d| == |e|
    requires forall x :: 0 <= x <= g.hdr || g.hdr + 8 <= x < g.CellOffset() ==> e[x] == d[x]
    ensures Fixed(e, g) == Fixed(d, g)
  {
    assert e[..g.hdr + 1] == d[..g.hdr + 1];
    assert RightOf(e, g) == RightOf(d, g);
  }

  ghost predicate AllWithin(cells: seq<Block>, n: nat) {
    forall i :: 0 <= i < |cells| ==> cells[i].End() <= n
  }

  ghost predicate CellsFit(d: seq<Byte>, kind: CellKind, cells: seq<Block>) {
    && kind.Valid() && AllWithin(cells, |d|)
    && forall i :: 0 <= i < |cells| ==> CellSize(kind, Slice(d, cells[i])) == cells[i].size
  }

  ghost function ContentsOf(d: seq<Byte>, cells: seq<Block>): (r: seq<seq<Byte>>)
    requires AllWithin(cells, |d|)
    ensures |r| == |cells|
    ensures forall i :: 0 <= i < |r| ==> r[i] == Slice(d, cells[i])
  {
    seq(|cells|, i requires 0 <= i < |cells| => Slice(d, cells[i]))
  }

  /** The bytes of a page: `cells` in pointer order, room for `count` pointers, and `extra`
      blocks handed out but not yet pointed to. */
  ghost predicate Intact(d: seq<Byte>, g: Dims, kind: CellKind, count: nat, cells: seq<Block>, extra: seq<Block>,
                         free: seq<Block>) {
    && g.Valid() && kind.leaf == g.leaf && kind.usable == g.usable && |d| == g.usable
    && Space(d, g, g.CellOffset() + 2 * count, cells + extra, free, |free|)
    && d[g.hdr + 7] <= 62
    && Get2(d, g.hdr + 3) == count >= |cells|
    && Pointers(d, g, cells) && CellsFit(d, kind, cells)
  }

  /** Bytes used by cells, and their pointers, say the same after a change elsewhere. */
  lemma {:induction false} SameContents(d: seq<Byte>, e: seq<Byte>, g: Dims, kind: CellKind, low: nat,
                                        cells: seq<Block>)
    requires g.Valid() && |d| == g.usable && g.CellOffset() + 2 * |cells| <= low
    requires SameUsed(d, e, g, low, cells) && Pointers(d, g, cells) && CellsFit(d, kind, cells)
    ensures Pointers(e, g, cells) && CellsFit(e, kind, cells) && ContentsOf(e, cells) == ContentsOf(d, cells)
    ensures Get2(e, g.hdr + 3) == Get2(d, g.hdr + 3)
  {
    hide Get2, CellSize;
    Get2Same(d, e, g.hdr + 3);
    forall i | 0 <= i < |cells|
      ensures Get2(e, g.CellOffset() + 2 * i) == cells[i].start
      ensures Slice(e, cells[i]) == Slice(d, cells[i])
    {
      Get2Same(d, e, g.CellOffset() + 2 * i);
      assert forall x :: cells[i].start <= x < cells[i].End() ==> e[x] == d[x];
    }
  }

  lemma {:induction false} SameUsedRight(d: seq<Byte>, e: seq<Byte>, g: Dims, low: nat, cells: seq<Block>)
    requires SameUsed(d, e, g, low, cells) && g.CellOffset() <= low && g.CellOffset() <= |d|
    ensures Fixed(e, g) == Fixed(d, g)
  {
    SameFixed(d, e, g);
  }

  /** Changes to free space only leave the page intact. */
  lemma {:induction false} StaysIntact(d: seq<Byte>, e: seq<Byte>, g: Dims, kind: CellKind, count: nat,
                                       cells: seq<Block>, extra: seq<Block>, free: seq<Block>, extra': seq<Block>,
                                       free': seq<Block>)
    requires Intact(d, g, kind, count, cells, extra, free)
    requires Space(e, g, g.CellOffset() + 2 * count, cells + extra', free', |free'|) && e[g.hdr + 7] <= 62
    requires SameUsed(d, e, g, g.CellOffset() + 2 * count, cells)
    ensures Intact(e, g, kind, count, cells, extra', free') && ContentsOf(e, cells) == ContentsOf(d, cells)
    ensures Fixed(e, g) == Fixed(d, g)
  {
    SameUsedRight(d, e, g, g.CellOffset() + 2 * count, cells);
    hide Space, SameUsed, Pointers, CellsFit, Get2, ContentsOf;
    SpaceWeaken(e, g, g.CellOffset() + 2 * count, cells + extra', free', |free'|);
    SameContents(d, e, g, kind, g.CellOffset() + 2 * count, cells);
  }
}
