/** The cell pointer array of a page: taking a pointer out, putting one in, and the list of
    cells the page stands for when some of them did not fit. */
module BtreePointers {
  import opened Basics
  import opened BtreeCell
  import opened BtreeSpace
  import opened BtreeContents

  // ------------------------------------------------------------ the pointer area

  /** Only the cell count and what lies between the header and the cell content differ. */
  ghost predicate OnlyPointers(d: seq<Byte>, e: seq<Byte>, g: Dims)
    requires g.Valid() && |d| == g.usable
  {
    && |e| == |d|
    && forall x :: 0 <= x < |d| && (x < g.hdr + 3 || g.hdr + 5 <= x < g.CellOffset() || Top(d, g) <= x) ==> e[x] == d[x]
  }

  lemma {:induction false} OnlyPointersGet2(d: seq<Byte>, e: seq<Byte>, g: Dims, i: nat)
    requires g.Valid() && |d| == g.usable && OnlyPointers(d, e, g)
    requires i + 2 <= |d| && (i + 2 <= g.hdr + 3 || g.hdr + 5 <= i <= g.hdr + 6 || Top(d, g) <= i)
    ensures Get2(e, i) == Get2(d, i)
  {}

  /** The space of the page is the same, with another end of the pointers. */
  lemma {:induction false} PointerArea(d: seq<Byte>, e: seq<Byte>, g: Dims, low: nat, low': nat, used: seq<Block>,
                                       free: seq<Block>)
    requires Space(d, g, low, used, free, |free|) && |e| == |d| && OnlyPointers(d, e, g)
             && g.CellOffset() <= low' <= Top(d, g)
    ensures Space(e, g, low', used, free, |free|) && Top(e, g) == Top(d, g) && e[g.hdr + 7] == d[g.hdr + 7]
  {
    hide Sum, Get2, FreeList, OnlyPointers, Inside, Disjoint, Spaced, Across;
    var top := Top(d, g);
    SpaceWeaken(d, g, low, used, free, |free|);
    OnlyPointersGet2(d, e, g, g.hdr + 5);
    forall j | 0 <= j <= |free| ensures LinkOk(e, g, free, j) {
      LinkFact(d, g, free, j);
      if j > 0 {
        OrderFact(g, low, top, used, free, 0, j);
      }
      OnlyPointersGet2(d, e, g, LinkAt(g, free, j));
      if j < |free| {
        OrderFact(g, low, top, used, free, 0, j + 1);
        OnlyPointersGet2(d, e, g, free[j].start + 2);
      }
    }
    FreeListIntro(e, g, free);
    assert e[g.hdr + 7] == d[g.hdr + 7] by {
      OnlyPointersByte(d, e, g);
    }
  }

  lemma {:induction false} OnlyPointersByte(d: seq<Byte>, e: seq<Byte>, g: Dims)
    requires g.Valid() && |d| == g.usable && OnlyPointers(d, e, g)
    ensures e[g.hdr + 7] == d[g.hdr + 7]
  {}

  lemma {:induction false} OnlyPointersRight(d: seq<Byte>, e: seq<Byte>, g: Dims)
    requires g.Valid() && |d| == g.usable && OnlyPointers(d, e, g)
    ensures Fixed(e, g) == Fixed(d, g)
  {
    SameFixed(d, e, g);
  }

  // ------------------------------------------------------------ the order of used blocks

  lemma {:induction false} TakenOut(d: seq<Byte>, g: Dims, low: nat, cells: seq<Block>, i: nat, free: seq<Block>,
                                    sep: int)
    requires Space(d, g, low, cells, free, sep) && i < |cells|
    ensures Space(d, g, low, Without(cells, i) + [cells[i]], free, sep)
  {
    hide Sum, FreeList, Get2, Spaced;
    var rest := Without(cells, i);
    SumWithout(cells, i);
    SumAppend(rest, [cells[i]]);
    SumOne(cells[i]);
    var used := rest + [cells[i]];
    forall a, b | 0 <= a < b < |used| ensures Apart(used[a], used[b]) {
      var a0, b0 := (if a < i then a else a + 1), if b == |rest| then i else if b < i then b else b + 1;
      assert Apart(cells[if a0 < b0 then a0 else b0], cells[if a0 < b0 then b0 else a0]);
    }
    forall a, b | 0 <= a < |used| && 0 <= b < |free| ensures Apart(used[a], free[b]) {
      assert Apart(cells[if a == |rest| then i else if a < i then a else a + 1], free[b]);
    }
  }

  lemma {:induction false} PutIn(d: seq<Byte>, g: Dims, low: nat, cells: seq<Block>, i: nat, b: Block, free: seq<Block>,
                                 sep: int)
    requires Space(d, g, low, cells + [b], free, sep) && i <= |cells|
    ensures Space(d, g, low, With(cells, i, b), free, sep) && Sum(With(cells, i, b)) == Sum(cells) + b.size
    ensures b.End() <= |d|
  {
    hide Sum, FreeList, Get2, Spaced;
    var used, all := With(cells, i, b), cells + [b];
    assert all[|cells|] == b;
    SumWith(cells, i, b);
    SumAppend(cells, [b]);
    SumOne(b);
    forall x, y | 0 <= x < y < |used| ensures Apart(used[x], used[y]) {
      var x0, y0 := (if x < i then x else if x == i then |cells| else x - 1),
          if y < i then y else if y == i then |cells| else y - 1;
      assert Apart(all[if x0 < y0 then x0 else y0], all[if x0 < y0 then y0 else x0]);
    }
    forall x | 0 <= x < |used| ensures Top(d, g) <= used[x].start && used[x].End() <= g.usable && used[x].size >= 4 {
      assert used[x] == all[if x < i then x else if x == i then |cells| else x - 1];
    }
    forall x, y | 0 <= x < |used| && 0 <= y < |free| ensures Apart(used[x], free[y]) {
      assert Apart(all[if x < i then x else if x == i then |cells| else x - 1], free[y]);
    }
  }

  /** Bytes of a block in use may change without any effect on the space around it. */
  lemma {:induction false} WriteUsed(d: seq<Byte>, e: seq<Byte>, g: Dims, low: nat, used: seq<Block>, free: seq<Block>,
                                     sep: int, k: nat)
    requires Space(d, g, low, used, free, sep) && |e| == |d| && k < |used|
    requires forall x :: 0 <= x < |d| && !(used[k].start <= x < used[k].End()) ==> e[x] == d[x]
    ensures Space(e, g, low, used, free, sep) && SameUsed(d, e, g, low, Without(used, k))
    ensures Top(e, g) == Top(d, g) && e[g.hdr + 7] == d[g.hdr + 7]
  {
    hide Sum, Get2, FreeList, Blocks, SameUsed;
    var top := Top(d, g);
    SpaceWeaken(d, g, low, used, free, sep);
    Weaken(g, low, top, used, free, 0);
    BlocksStart(g, low, top, used, free, 0);
    Get2Same(d, e, g.hdr + 5);
    BlocksSep(d, g, low, used, free, sep);
    forall j | 0 <= j <= |free| ensures LinkOk(e, g, free, j) {
      LinkFact(d, g, free, j);
      if j > 0 {
        UsedFact(g, low, top, used, free, k, j - 1);
      }
      Get2Same(d, e, LinkAt(g, free, j));
      if j < |free| {
        UsedFact(g, low, top, used, free, k, j);
        Get2Same(d, e, free[j].start + 2);
      }
    }
    FreeListIntro(e, g, free);
    OtherUsed(d, e, g, low, top, used, free, k);
  }

  lemma {:induction false} BlocksStart(g: Dims, low: nat, top: nat, used: seq<Block>, free: seq<Block>, sep: int)
    requires Blocks(g, low, top, used, free, sep)
    ensures g.hdr + 8 <= g.CellOffset() <= low <= top <= g.usable
  {}

  lemma {:induction false} BlocksSep(d: seq<Byte>, g: Dims, low: nat, used: seq<Block>, free: seq<Block>, sep: int)
    requires Space(d, g, low, used, free, sep)
    ensures Blocks(g, low, Top(d, g), used, free, sep)
  {}

  lemma {:induction false} OtherUsed(d: seq<Byte>, e: seq<Byte>, g: Dims, low: nat, top: nat, used: seq<Block>,
                                     free: seq<Block>, k: nat)
    requires Blocks(g, low, top, used, free, 0) && |e| == |d| && k < |used|
    requires forall x :: 0 <= x < |d| && !(used[k].start <= x < used[k].End()) ==> e[x] == d[x]
    ensures SameUsed(d, e, g, low, Without(used, k))
  {
    var rest := Without(used, k);
    forall j, x | 0 <= j < |rest| && rest[j].start <= x < rest[j].End() && 0 <= x < |d| ensures e[x] == d[x] {
      if j < k {
        assert Apart(used[j], used[k]);
      } else {
        assert Apart(used[k], used[j + 1]);
      }
    }
  }

  // ------------------------------------------------------------ pointers shifted

  /** `n` pointers moved down by one place, over the one at `at`. */
  ghost function ClosedUp(d: seq<Byte>, at: nat, n: nat): (r: seq<Byte>)
    requires at + 2 * n + 2 <= |d|
    ensures |r| == |d|
    ensures forall x :: 0 <= x < |d| ==> r[x] == if at <= x < at + 2 * n then d[x + 2] else d[x]
  {
    d[..at] + d[at + 2..at + 2 * n + 2] + d[at + 2 * n..]
  }

  /** `n` pointers moved up by one place, leaving the one at `at`. */
  ghost function Opened(d: seq<Byte>, at: nat, n: nat): (r: seq<Byte>)
    requires at + 2 * n + 2 <= |d|
    ensures |r| == |d|
    ensures forall x :: 0 <= x < |d| ==> r[x] == if at + 2 <= x < at + 2 * n + 2 then d[x - 2] else d[x]
  {
    d[..at + 2] + d[at..at + 2 * n] + d[at + 2 * n + 2..]
  }

  lemma {:induction false} NothingShifted(d: seq<Byte>, at: nat)
    requires at + 2 <= |d|
    ensures ClosedUp(d, at, 0) == d && Opened(d, at, 0) == d
  {
    hide ClosedUp, Opened;
    var c, o := ClosedUp(d, at, 0), Opened(d, at, 0);
    assert |c| == |o| == |d|;
    forall x | 0 <= x < |d| ensures c[x] == d[x] == o[x] {
      ShiftedByte(d, at, x);
    }
  }

  lemma {:induction false} ShiftedByte(d: seq<Byte>, at: nat, x: nat)
    requires at + 2 <= |d| && x < |d|
    ensures ClosedUp(d, at, 0)[x] == d[x] && Opened(d, at, 0)[x] == d[x]
  {}

  lemma {:induction false} ClosedUpStep(d: seq<Byte>, at: nat, i: nat)
    requires at + 2 * i + 4 <= |d|
    ensures ClosedUp(d, at, i)[at + 2 * i := d[at + 2 * i + 2]][at + 2 * i + 1 := d[at + 2 * i + 3]]
            == ClosedUp(d, at, i + 1)
    ensures ClosedUp(d, at, i)[at + 2 * i + 2] == d[at + 2 * i + 2]
            && ClosedUp(d, at, i)[at + 2 * i + 3] == d[at + 2 * i + 3]
  {}

  lemma {:induction false} OpenedStep(d: seq<Byte>, at: nat, n: nat)
    requires at + 2 * n + 4 <= |d|
    ensures Opened(d, at + 2, n)[at + 2 := d[at]][at + 3 := d[at + 1]] == Opened(d, at, n + 1)
    ensures Opened(d, at + 2, n)[at] == d[at] && Opened(d, at + 2, n)[at + 1] == d[at + 1]
  {}

  lemma {:induction false} PointersWithout(d: seq<Byte>, g: Dims, cells: seq<Block>, i: nat, e: seq<Byte>)
    requires Pointers(d, g, cells) && i < |cells| && g.hdr + 8 <= |d| < 0x10000
    requires e == Put2(ClosedUp(d, g.CellOffset() + 2 * i, |cells| - i - 1), g.hdr + 3, |cells| - 1)
    ensures Pointers(e, g, Without(cells, i))
    ensures g.Valid() && |d| == g.usable && g.CellOffset() + 2 * |cells| <= Top(d, g) ==> OnlyPointers(d, e, g)
  {
    hide Get2;
    var rest, c := Without(cells, i), ClosedUp(d, g.CellOffset() + 2 * i, |cells| - i - 1);
    forall j | 0 <= j < |rest| ensures Get2(e, g.CellOffset() + 2 * j) == rest[j].start {
      Get2Same(c, e, g.CellOffset() + 2 * j);
      if j < i {
        Get2Same(d, c, g.CellOffset() + 2 * j);
      } else {
        ShiftedGet2(d, c, g.CellOffset() + 2 * (j + 1), g.CellOffset() + 2 * j);
      }
    }
  }

  lemma {:induction false} PointersWith(d: seq<Byte>, g: Dims, cells: seq<Block>, i: nat, b: Block, e: seq<Byte>)
    requires Pointers(d, g, cells) && i <= |cells| && b.start < 0x10000
             && g.CellOffset() + 2 * |cells| + 2 <= |d| < 0x10000
    requires e == Put2(Put2(Opened(d, g.CellOffset() + 2 * i, |cells| - i), g.CellOffset() + 2 * i, b.start), g.hdr + 3,
                       |cells| + 1)
    ensures Pointers(e, g, With(cells, i, b))
    ensures g.Valid() && |d| == g.usable && g.CellOffset() + 2 * |cells| + 2 <= Top(d, g) ==> OnlyPointers(d, e, g)
  {
    hide Get2, Pointers, OnlyPointers;
    var more := With(cells, i, b);
    forall j | 0 <= j < |more| ensures Get2(e, g.CellOffset() + 2 * j) == more[j].start {
      PointerWith(d, g, cells, i, b, e, j);
    }
    PointersIntro(e, g, more);
    OpenedElsewhere(d, g, cells, i, b, e);
  }

  lemma {:induction false} OpenedElsewhere(d: seq<Byte>, g: Dims, cells: seq<Block>, i: nat, b: Block, e: seq<Byte>)
    requires i <= |cells| && b.start < 0x10000 && g.CellOffset() + 2 * |cells| + 2 <= |d| < 0x10000
    requires e == Put2(Put2(Opened(d, g.CellOffset() + 2 * i, |cells| - i), g.CellOffset() + 2 * i, b.start), g.hdr + 3,
                       |cells| + 1)
    ensures g.Valid() && |d| == g.usable && g.CellOffset() + 2 * |cells| + 2 <= Top(d, g) ==> OnlyPointers(d, e, g)
  {
    hide Get2;
  }

  lemma {:induction false} PointerWith(d: seq<Byte>, g: Dims, cells: seq<Block>, i: nat, b: Block, e: seq<Byte>, j: nat)
    requires Pointers(d, g, cells) && i <= |cells| && b.start < 0x10000
             && g.CellOffset() + 2 * |cells| + 2 <= |d| < 0x10000
    requires e == Put2(Put2(Opened(d, g.CellOffset() + 2 * i, |cells| - i), g.CellOffset() + 2 * i, b.start), g.hdr + 3,
                       |cells| + 1)
    requires j <= |cells|
    ensures Get2(e, g.CellOffset() + 2 * j) == With(cells, i, b)[j].start
  {
    hide Get2, Pointers;
    var at := g.CellOffset() + 2 * i;
    var o := Opened(d, at, |cells| - i);
    var p := Put2(o, at, b.start);
    PointerFact(d, g, cells, if j < i || j == 0 then j else j - 1);
    Get2Same(p, e, g.CellOffset() + 2 * j);
    if j < i {
      Get2Same(o, p, g.CellOffset() + 2 * j);
      Get2Same(d, o, g.CellOffset() + 2 * j);
    } else if j > i {
      Get2Same(o, p, g.CellOffset() + 2 * j);
      ShiftedGet2(d, o, g.CellOffset() + 2 * (j - 1), g.CellOffset() + 2 * j);
    }
  }

  lemma {:induction false} PointerFact(d: seq<Byte>, g: Dims, cells: seq<Block>, j: nat)
    requires Pointers(d, g, cells)
    ensures g.CellOffset() + 2 * |cells| <= |d|
    ensures j < |cells| ==> Get2(d, g.CellOffset() + 2 * j) == cells[j].start
  {}

  lemma {:induction false} PointersIntro(d: seq<Byte>, g: Dims, cells: seq<Block>)
    requires g.CellOffset() + 2 * |cells| <= |d|
    requires forall i :: 0 <= i < |cells| ==> Get2(d, g.CellOffset() + 2 * i) == cells[i].start
    ensures Pointers(d, g, cells)
  {}

  lemma {:induction false} ShiftedGet2(d: seq<Byte>, e: seq<Byte>, i: nat, j: nat)
    requires i + 2 <= |d| && j + 2 <= |e| && e[j] == d[i] && e[j + 1] == d[i + 1]
    ensures Get2(e, j) == Get2(d, i)
  {}

  // ------------------------------------------------------------ cells dropped and inserted

  /** Dropping a pointer drops the cell from the contents. */
  lemma {:induction false} CellDropped(d: seq<Byte>, g: Dims, kind: CellKind, cells: seq<Block>, i: nat,
                                       free: seq<Block>, e: seq<Byte>)
    requires g.Valid() && |d| == g.usable && g.CellOffset() + 2 * |cells| <= |d| && i < |cells| && kind.leaf == g.leaf
             && kind.usable == g.usable
    requires Space(d, g, g.CellOffset() + 2 * |cells|, Without(cells, i), free, |free|) && d[g.hdr + 7] <= 62
    requires Pointers(d, g, cells) && CellsFit(d, kind, Without(cells, i))
    requires e == Put2(ClosedUp(d, g.CellOffset() + 2 * i, |cells| - i - 1), g.hdr + 3, |cells| - 1)
    ensures Intact(e, g, kind, |cells| - 1, Without(cells, i), [], free)
    ensures ContentsOf(e, Without(cells, i)) == ContentsOf(d, Without(cells, i)) && Fixed(e, g) == Fixed(d, g)
  {
    hide Space, Get2, Pointers, ClosedUp, OnlyPointers, CellSize;
    var rest, low := Without(cells, i), g.CellOffset() + 2 * |cells|;
    SpaceWeaken(d, g, low, rest, free, |free|);
    PointersWithout(d, g, cells, i, e);
    OnlyPointersRight(d, e, g);
    PointerArea(d, e, g, low, low - 2, rest, free);
    assert rest + [] == rest;
    SameAbove(d, e, g, low, rest, free);
  }

  /** The blocks of the content area keep their bytes. */
  lemma {:induction false} SameAbove(d: seq<Byte>, e: seq<Byte>, g: Dims, low: nat, used: seq<Block>, free: seq<Block>)
    requires Space(d, g, low, used, free, |free|) && |e| == |d| && OnlyPointers(d, e, g) && AllWithin(used, |d|)
    ensures forall j :: 0 <= j < |used| ==> Slice(e, used[j]) == Slice(d, used[j])
    ensures ContentsOf(e, used) == ContentsOf(d, used)
  {
    hide Sum, FreeList, Get2;
    forall j | 0 <= j < |used| ensures Slice(e, used[j]) == Slice(d, used[j]) {
      assert Top(d, g) <= used[j].start;
    }
  }

  /** A pointer to a block that has been handed out and filled inserts its bytes into the contents. */
  lemma {:induction false} CellInserted(d: seq<Byte>, g: Dims, kind: CellKind, cells: seq<Block>, i: nat, b: Block,
                                        free: seq<Block>, e: seq<Byte>)
    requires Intact(d, g, kind, |cells|, cells, [b], free) && i <= |cells|
             && g.CellOffset() + 2 * |cells| + 2 <= Top(d, g)
    requires b.End() <= |d| && CellSize(kind, Slice(d, b)) == b.size && |cells| + 1 < 0x10000
    requires e == Put2(Put2(Opened(d, g.CellOffset() + 2 * i, |cells| - i), g.CellOffset() + 2 * i, b.start), g.hdr + 3,
                       |cells| + 1)
    ensures Intact(e, g, kind, |cells| + 1, With(cells, i, b), [], free)
    ensures AllWithin(cells, |d|) && Sum(With(cells, i, b)) == Sum(cells) + b.size
    ensures ContentsOf(e, With(cells, i, b)) == InsertAt(ContentsOf(d, cells), i, Slice(d, b))
            && Fixed(e, g) == Fixed(d, g)
  {
    hide Space, Get2, Pointers, Opened, OnlyPointers, CellSize, Sum;
    var more, low := With(cells, i, b), g.CellOffset() + 2 * |cells|;
    SpaceWeaken(d, g, low, cells + [b], free, |free|);
    PutIn(d, g, low, cells, i, b, free, |free|);
    PointersWith(d, g, cells, i, b, e);
    OnlyPointersRight(d, e, g);
    PointerArea(d, e, g, low, low + 2, more, free);
    assert more + [] == more;
    SameAbove(d, e, g, low, more, free);
  }

  // ------------------------------------------------------------ the logical list of cells

  /** A cell waiting for room, to be put before the `idx`-th of the cells so far. */
  datatype Overflow = Overflow(idx: nat, cell: seq<Byte>)

  const MAX_OVERFLOW := 5

  /** Each pending cell can be inserted after those before it. */
  ghost predicate LogicalOk(n: nat, over: seq<Overflow>) {
    forall t :: 0 <= t < |over| ==> over[t].idx <= n + t
  }

  /** Waiting cells are whole. */
  ghost predicate AllSized(kind: CellKind, over: seq<Overflow>) {
    kind.Valid() && forall t :: 0 <= t < |over| ==> CellSize(kind, over[t].cell) == |over[t].cell|
  }

  /** The cells on the page, with the pending ones inserted one after the other. */
  ghost function Inserted(cells: seq<seq<Byte>>, over: seq<Overflow>): (r: seq<seq<Byte>>)
    requires LogicalOk(|cells|, over)
    ensures |r| == |cells| + |over|
  {
    if over == [] then cells
    else InsertAt(Inserted(cells, over[..|over| - 1]), over[|over| - 1].idx, over[|over| - 1].cell)
  }

  lemma {:induction false} InsertedNext(cells: seq<seq<Byte>>, over: seq<Overflow>, o: Overflow)
    requires LogicalOk(|cells|, over) && o.idx <= |cells| + |over|
    ensures LogicalOk(|cells|, over + [o])
    ensures Inserted(cells, over + [o]) == InsertAt(Inserted(cells, over), o.idx, o.cell)
  {
    assert (over + [o])[..|over|] == over;
  }

  lemma {:induction false} InsertedBack(cells: seq<seq<Byte>>, over: seq<Overflow>, t: nat, k: nat)
    requires LogicalOk(|cells|, over) && t < |over| && k < |cells| + t + 1
    ensures LogicalOk(|cells|, over[..t]) && LogicalOk(|cells|, over[..t + 1])
    ensures Inserted(cells, over[..t + 1])[k] ==
            if over[t].idx == k then over[t].cell else Inserted(cells, over[..t])[if over[t].idx < k then k - 1 else k]
    ensures over[t].idx > k ==> k < |cells| + t
  {
    assert over[..t + 1][..t] == over[..t];
  }

  /** The first `n` entries are a list of their own. */
  lemma {:induction false} LogicalPrefix(n: nat, over: seq<Overflow>, t: nat)
    requires LogicalOk(n, over) && t <= |over|
    ensures LogicalOk(n, over[..t])
  {}

  lemma {:induction false} NothingInserted(cells: seq<seq<Byte>>, over: seq<Overflow>)
    ensures LogicalOk(|cells|, over[..0]) && Inserted(cells, over[..0]) == cells
  {}

  // ------------------------------------------------------------ a child pointer rewritten

  /** Where the `i`-th cell of the logical list is kept. */
  datatype Spot = OnPage(k: nat) | Waiting(t: nat)

  ghost function WhereIs(over: seq<Overflow>, i: nat): (s: Spot)
    ensures s.Waiting? ==> s.t < |over|
  {
    if over == [] then OnPage(i)
    else
      var o := over[|over| - 1];
      if o.idx == i then Waiting(|over| - 1) else WhereIs(over[..|over| - 1], if o.idx < i then i - 1 else i)
  }

  lemma {:induction false} WhereIsBack(over: seq<Overflow>, t: nat, k: nat)
    requires t < |over|
    ensures WhereIs(over[..t + 1], k) ==
            if over[t].idx == k then Waiting(t) else WhereIs(over[..t], if over[t].idx < k then k - 1 else k)
  {
    assert over[..t + 1][..t] == over[..t];
  }

  /** Replacing a cell where it is kept replaces it in the logical list. */
  lemma {:induction false} ReplacedOnPage(cells: seq<seq<Byte>>, over: seq<Overflow>, i: nat, x: seq<Byte>)
    requires LogicalOk(|cells|, over) && i < |cells| + |over| && WhereIs(over, i).OnPage?
    ensures var k := WhereIs(over, i).k;
            k < |cells| && Inserted(cells, over)[i] == cells[k]
                && Inserted(cells[k := x], over) == Inserted(cells, over)[i := x]
    decreases |over|
  {
    if over != [] {
      var o, rest := over[|over| - 1], over[..|over| - 1];
      var j := if o.idx < i then i - 1 else i;
      ReplacedOnPage(cells, rest, j, x);
      var k := WhereIs(rest, j).k;
      InsertAtUpdate(Inserted(cells, rest), o.idx, o.cell, i, x);
    }
  }

  lemma {:induction false} ReplacedWaiting(cells: seq<seq<Byte>>, over: seq<Overflow>, i: nat, x: seq<Byte>)
    requires LogicalOk(|cells|, over) && i < |cells| + |over| && WhereIs(over, i).Waiting?
    ensures var t := WhereIs(over, i).t;
            var over' := over[t := Overflow(over[t].idx, x)];
            && LogicalOk(|cells|, over') && Inserted(cells, over)[i] == over[t].cell
            && Inserted(cells, over') == Inserted(cells, over)[i := x]
    decreases |over|
  {
    hide InsertAt, Inserted;
    var n := |over|;
    var o, rest, t := over[n - 1], over[..n - 1], WhereIs(over, i).t;
    var over' := over[t := Overflow(over[t].idx, x)];
    InsertedLast(cells, over);
    var was := Inserted(cells, rest);
    InsertAtUpdate(was, o.idx, o.cell, i, x);
    if o.idx == i {
      assert over'[..n - 1] == rest;
    } else {
      var j := if o.idx < i then i - 1 else i;
      ReplacedWaiting(cells, rest, j, x);
      assert over'[..n - 1] == rest[t := Overflow(rest[t].idx, x)] && over'[n - 1] == o;
    }
    InsertedLast(cells, over');
  }

  lemma {:induction false} InsertedLast(cells: seq<seq<Byte>>, over: seq<Overflow>)
    requires LogicalOk(|cells|, over) && over != []
    ensures LogicalOk(|cells|, over[..|over| - 1])
    ensures Inserted(cells, over) == InsertAt(Inserted(cells, over[..|over| - 1]), over[|over| - 1].idx,
                                              over[|over| - 1].cell)
  {}

  lemma {:induction false} InsertAtUpdate<T>(s: seq<T>, at: nat, y: T, i: nat, x: T)
    requires at <= |s| && i <= |s|
    ensures InsertAt(s, at, y)[i := x] ==
            if i == at then InsertAt(s, at, x) else InsertAt(s[if at < i then i - 1 else i := x], at, y)
    ensures InsertAt(s, at, y)[i] == if i == at then y else s[if at < i then i - 1 else i]
  {}

  /** Four other bytes at the front of a cell. */
  lemma {:induction false} ChildWritten(d: seq<Byte>, e: seq<Byte>, g: Dims, kind: CellKind, cells: seq<Block>,
                                        free: seq<Block>, k: nat, ptr: seq<Byte>)
    requires Intact(d, g, kind, |cells|, cells, [], free) && k < |cells| && |ptr| == 4 && !kind.leaf && |e| == |d|
    requires cells[k].start + 4 <= |d|
    requires forall x :: 0 <= x < |d| ==> e[x] == if cells[k].start <= x < cells[k].start + 4
                                                    then ptr[x - cells[k].start] else d[x]
    ensures Intact(e, g, kind, |cells|, cells, [], free) && AllWithin(cells, |d|) && cells[k].size >= 4
    ensures ContentsOf(e, cells) == ContentsOf(d, cells)[k := ptr + ContentsOf(d, cells)[k][4..]]
    ensures Fixed(e, g) == Fixed(d, g)
  {
    hide Space, Get2, CellSize, SameUsed, Sum, Put2;
    var low, b := g.CellOffset() + 2 * |cells|, cells[k];
    assert cells + [] == cells;
    CellBounds(d, g, low, cells, free, k);
    SameFixed(d, e, g);
    WriteUsed(d, e, g, low, cells, free, |free|, k);
    forall j | 0 <= j < |cells| ensures Get2(e, g.CellOffset() + 2 * j) == cells[j].start {
      Get2Same(d, e, g.CellOffset() + 2 * j);
    }
    Get2Same(d, e, g.hdr + 3);
    ChildSlice(d, e, b, ptr);
    SameFront(kind, Slice(d, b), Slice(e, b));
    forall j | 0 <= j < |cells| && j != k ensures Slice(e, cells[j]) == Slice(d, cells[j]) {
      OtherSlice(d, e, g, low, cells, k, j);
    }
  }

  lemma {:induction false} ChildSlice(d: seq<Byte>, e: seq<Byte>, b: Block, ptr: seq<Byte>)
    requires b.End() <= |d| == |e| && b.size >= 4 && |ptr| == 4
    requires forall x :: b.start <= x < b.End() ==> e[x] == if x < b.start + 4 then ptr[x - b.start] else d[x]
    ensures Slice(e, b) == ptr + Slice(d, b)[4..] && Slice(e, b)[4..] == Slice(d, b)[4..]
  {
    var c, f := Slice(d, b), Slice(e, b);
    forall y | 0 <= y < b.size ensures f[y] == (ptr + c[4..])[y] {
      assert f[y] == e[b.start + y] && c[y] == d[b.start + y];
    }
    assert f == ptr + c[4..];
  }

  lemma {:induction false} CellBounds(d: seq<Byte>, g: Dims, low: nat, cells: seq<Block>, free: seq<Block>, k: nat)
    requires Space(d, g, low, cells, free, |free|) && k < |cells|
    ensures g.hdr + 8 <= g.CellOffset() <= low <= cells[k].start && cells[k].End() <= |d| && cells[k].size >= 4
  {
    hide Sum, FreeList;
  }

  lemma {:induction false} SameFront(kind: CellKind, s: seq<Byte>, t: seq<Byte>)
    requires kind.Valid() && !kind.leaf && 4 <= |s| == |t| && s[4..] == t[4..]
    ensures CellSize(kind, t) == CellSize(kind, s)
  {
    CellSkips(kind, s, t, 4);
  }

  lemma {:induction false} OtherSlice(d: seq<Byte>, e: seq<Byte>, g: Dims, low: nat, cells: seq<Block>, k: nat, j: nat)
    requires k < |cells| && SameUsed(d, e, g, low, Without(cells, k)) && j < |cells| && j != k && cells[j].End() <= |d|
    ensures Slice(e, cells[j]) == Slice(d, cells[j])
  {
    var rest := Without(cells, k);
    var j0 := if j < k then j else j - 1;
    assert rest[j0] == cells[j];
    assert forall x :: rest[j0].start <= x < rest[j0].End() ==> e[x] == d[x];
    var a, b := Slice(d, cells[j]), Slice(e, cells[j]);
    assert forall x :: 0 <= x < |a| ==> a[x] == d[cells[j].start + x] && b[x] == e[cells[j].start + x];
  }

  lemma {:induction false} NotWaiting(over: seq<Overflow>, k: nat)
    ensures WhereIs(over[..0], k) == OnPage(k)
  {}

  lemma {:induction false} RightWritten(d: seq<Byte>, e: seq<Byte>, g: Dims, kind: CellKind, cells: seq<Block>,
                                        free: seq<Block>, ptr: seq<Byte>)
    requires Intact(d, g, kind, |cells|, cells, [], free) && |ptr| == 4 && !g.leaf && |e| == |d|
             && g.CellOffset() <= |d|
    requires forall x :: 0 <= x < |d| ==> e[x] == if g.hdr + 8 <= x < g.hdr + 12 then ptr[x - g.hdr - 8] else d[x]
    ensures Intact(e, g, kind, |cells|, cells, [], free) && AllWithin(cells, |d|)
            && ContentsOf(e, cells) == ContentsOf(d, cells)
    ensures RightOf(e, g) == ptr && e[..g.hdr + 1] == d[..g.hdr + 1]
  {
    hide Space, Get2, CellSize, SameUsed, Sum, Put2;
    var low := g.CellOffset() + 2 * |cells|;
    assert cells + [] == cells;
    RightSpace(d, e, g, low, cells, free);
    forall j | 0 <= j < |cells|
      ensures Get2(e, g.CellOffset() + 2 * j) == cells[j].start && Slice(e, cells[j]) == Slice(d, cells[j])
    {
      Get2Same(d, e, g.CellOffset() + 2 * j);
      CellBounds(d, g, low, cells, free, j);
    }
    Get2Same(d, e, g.hdr + 3);
  }

  lemma {:induction false} RightSpace(d: seq<Byte>, e: seq<Byte>, g: Dims, low: nat, used: seq<Block>, free: seq<Block>)
    requires Space(d, g, low, used, free, |free|) && !g.leaf && |e| == |d|
    requires forall x :: 0 <= x < |d| && !(g.hdr + 8 <= x < g.hdr + 12) ==> e[x] == d[x]
    ensures Space(e, g, low, used, free, |free|) && e[g.hdr + 7] == d[g.hdr + 7]
  {
    hide Sum, Get2, FreeList, Blocks;
    var top := Top(d, g);
    SpaceWeaken(d, g, low, used, free, |free|);
    BlocksStart(g, low, top, used, free, 0);
    Get2Same(d, e, g.hdr + 5);
    forall j | 0 <= j <= |free| ensures LinkOk(e, g, free, j) {
      LinkFact(d, g, free, j);
      if j > 0 {
        OrderFact(g, low, top, used, free, 0, j);
      }
      Get2Same(d, e, LinkAt(g, free, j));
      if j < |free| {
        OrderFact(g, low, top, used, free, 0, j + 1);
        Get2Same(d, e, free[j].start + 2);
      }
    }
    FreeListIntro(e, g, free);
  }
}
