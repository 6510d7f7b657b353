/** balance_nonroot as a whole: which neighbours take part, how many pages they need, where the
    new pages go, and what the parent says afterwards. */
module BalanceNonroot {
  import opened Basics
  import opened BtreeCell
  import opened BtreeSpace
  import opened BtreeContents
  import opened BtreePointers
  import opened BtreePage
  import opened BtreeDivider
  import opened BalancePacking
  import opened BalanceMeaning
  import opened BalanceBound
  import opened BalanceSiblings
  import opened BalanceScratch

  const NN := 1

  // ------------------------------------------------------------ how full a page is

  lemma {:induction false} ContentsWeight(d: seq<Byte>, cells: seq<Block>)
    requires AllWithin(cells, |d|)
    ensures Weight(ContentsOf(d, cells)) == Sum(cells) + 2 * |cells|
  {
    if cells == [] {
      WeightOne([]);
      assert ContentsOf(d, cells) == [];
    } else {
      var n := |cells| - 1;
      var front := cells[..n];
      ContentsWeight(d, front);
      WeightAppend(ContentsOf(d, front), [Slice(d, cells[n])]);
      WeightOne(Slice(d, cells[n]));
      assert ContentsOf(d, cells) == ContentsOf(d, front) + [Slice(d, cells[n])];
    }
  }

  /** The cells that are on a page fit on it. */
  lemma {:induction false} PageWeight(p: MemPage)
    requires p.Valid()
    ensures AllWithin(p.cells, p.data.Length) && Weight(p.Contents()) <= Room(p)
  {
    hide CellSize, CellsFit, Pointers, Get2, Weight, Sum, Space;
    PageFacts(p);
    ContentsWeight(p.data[..], p.cells);
    IntactFacts(p.data[..], p.g, p.kind, |p.cells|, p.cells, [], p.free);
    SpaceWeight(p.data[..], p.g, p.Low(), p.cells, p.free);
  }

  lemma {:induction false} SpaceWeight(d: seq<Byte>, g: Dims, low: nat, used: seq<Block>, free: seq<Block>)
    requires Space(d, g, low, used, free, |free|)
    ensures low + Sum(used) <= g.usable
  {
    hide Sum, FreeList, Get2;
    BlocksPacked(g, low, Top(d, g), used, free, |free|);
  }

  /** The waiting cells of an overfull page belong next to each other. */
  ghost predicate Burst(over: seq<Overflow>, leafData: bool) {
    && |over| <= (if leafData then 1 else 4)
    && forall t :: 0 <= t < |over| ==> over[t].idx == over[0].idx + t
  }

  ghost function CellsOf(over: seq<Overflow>): (r: seq<seq<Byte>>)
    ensures |r| == |over| && forall t :: 0 <= t < |r| ==> r[t] == over[t].cell
  {
    seq(|over|, t requires 0 <= t < |over| => over[t].cell)
  }

  lemma {:induction false} BurstInserted(cells: seq<seq<Byte>>, over: seq<Overflow>, leafData: bool)
    requires LogicalOk(|cells|, over) && Burst(over, leafData) && over != []
    ensures over[0].idx <= |cells|
    ensures Inserted(cells, over) == cells[..over[0].idx] + CellsOf(over) + cells[over[0].idx..]
    decreases |over|
  {
    var n, o := |over| - 1, over[0].idx;
    var rest := over[..n];
    if n == 0 {
      assert Inserted(cells, rest) == cells;
      assert CellsOf(over) == [over[0].cell];
    } else {
      BurstInserted(cells, rest, leafData);
      var was := cells[..o] + CellsOf(rest) + cells[o..];
      assert CellsOf(over) == CellsOf(rest) + [over[n].cell];
      assert was[..o + n] == cells[..o] + CellsOf(rest) && was[o + n..] == cells[o..];
    }
  }

  // ------------------------------------------------------------ the family of a parent

  /** The child pages of an interior page, in order. */
  ghost function Kids(cells: seq<seq<Byte>>, right: seq<Byte>): (r: seq<nat>)
    requires Shaped(false, cells) && |right| == 4
    ensures |r| == |cells| + 1
    ensures forall i :: 0 <= i < |cells| ==> r[i] == Num(cells[i][..4])
    ensures r[|cells|] == Num(right)
  {
    seq(|cells|, i requires 0 <= i < |cells| => Num(cells[i][..4])) + [Num(right)]
  }

  /** Page numbers lead to distinct pages, none of them the parent. */
  ghost predicate Pager(parent: MemPage, pager: map<nat, MemPage>, leafData: bool) {
    && (forall m, n :: m in pager && n in pager && m != n ==> pager[m] != pager[n] && pager[m].data != pager[n].data)
    && (forall n :: n in pager ==> n < TWO32 && pager[n] != parent && pager[n].data != parent.data)
    && (forall n :: n in pager ==> SameKind(parent, pager[n], leafData) && Zeroable(pager[n]))
    && (forall m, n :: m in pager && n in pager ==> pager[m].g == pager[n].g && pager[m].kind == pager[n].kind)
    && !parent.kind.leaf && !parent.g.leaf
  }

  ghost predicate Zeroable(p: MemPage) {
    p.data.Length == p.g.usable && p.g.Valid() && p.kind.Valid() && p.kind.leaf == p.g.leaf
    && p.kind.usable == p.g.usable
  }

  /** A cell, counted as one of the level below its page, is of a size to be divided. */
  ghost predicate Sizable(kind: CellKind, leafData: bool, room: nat, c: seq<Byte>)
    requires kind.Valid()
  {
    && 4 <= |c| && (if leafData then 1 else 2) * (|c| + 2) <= room
    && (kind.leaf && !leafData ==> NaturalSize(kind, c) == |c|)
  }

  ghost predicate AllSizable(kind: CellKind, leafData: bool, room: nat, cells: seq<seq<Byte>>) {
    kind.Valid() && forall i :: 0 <= i < |cells| ==> Sizable(kind, leafData, room, cells[i])
  }

  /** The pages `kids` hold `nodes`; only the one at `idx` may be overfull. */
  ghost predicate Family(pager: map<nat, MemPage>, kids: seq<nat>, nodes: seq<Node>, idx: nat, leafData: bool)
    reads set n | n in pager :: pager[n]
    reads set n | n in pager :: pager[n].data
  {
    && |kids| == |nodes| && (forall i, j :: 0 <= i < j < |kids| ==> kids[i] != kids[j])
    && forall i :: 0 <= i < |kids| ==>
         && kids[i] in pager && Holds(pager[kids[i]], nodes[i])
         && (if i == idx then Burst(pager[kids[i]].overflow, leafData) else pager[kids[i]].overflow == [])
         && AllSizable(pager[kids[i]].kind, leafData, Room(pager[kids[i]]), nodes[i].cells)
  }

  /** All pages of the pager are of one kind, with the same room. */
  ghost predicate KindOk(pager: map<nat, MemPage>, kind: CellKind, room: nat) {
    forall n :: n in pager ==> pager[n].kind == kind && Room(pager[n]) == room
  }

  // ------------------------------------------------------------ choosing neighbours

  /** The first divider and the number of pages: one neighbour on each side if there is one,
      two on one side at the ends, all children if there are few. */
  method ChooseSiblings(nCell: nat, idx: nat) returns (nxDiv: nat, nOld: nat)
    requires idx <= nCell
    ensures nxDiv <= idx < nxDiv + nOld <= nCell + 1
    ensures nOld == if nCell + 1 < NB then nCell + 1 else NB
    ensures 0 < idx < nCell ==> nxDiv == idx - NN
  {
    var first: int := idx - NN;
    if first + NB > nCell {
      first := nCell - NB + 1;
    }
    if first < 0 {
      first := 0;
    }
    nxDiv := first;
    var i := 0;
    while i < NB && nxDiv + i <= nCell
      invariant 0 <= i <= NB && nxDiv + i <= nCell + 1
    {
      i := i + 1;
    }
    nOld := i;
  }

  /** The numbers of the chosen pages, read from the parent. */
  method ReadKids(parent: MemPage, nxDiv: nat, nOld: nat) returns (pgnoOld: seq<nat>)
    requires parent.Valid() && parent.overflow == [] && nxDiv + nOld <= parent.nCell + 1 && !parent.g.leaf
    requires parent.g.CellOffset() <= parent.data.Length && AllWithin(parent.cells, parent.data.Length)
    requires Shaped(false, parent.Contents()) && |parent.Right()| == 4
    ensures pgnoOld == Kids(parent.Contents(), parent.Right())[nxDiv..nxDiv + nOld]
  {
    hide MemPage.Valid, MemPage.Contents, MemPage.Right, Num;
    PageFacts(parent);
    ghost var kids := Kids(parent.Contents(), parent.Right());
    pgnoOld := [];
    var i := 0;
    while i < nOld
      invariant 0 <= i <= nOld && pgnoOld == kids[nxDiv..nxDiv + i]
    {
      var k := nxDiv + i;
      if k < parent.nCell {
        var cell := parent.FindCell(k);
        pgnoOld := pgnoOld + [Num(cell[..4])];
      } else {
        pgnoOld := pgnoOld + [Num(parent.Right())];
      }
      i := i + 1;
    }
  }

  /** Zero the pages that will be written. */
  method ZeroAll(apNew: seq<MemPage>, flags: Byte)
    requires Separate(apNew) && forall i :: 0 <= i < |apNew| ==> Zeroable(apNew[i])
    modifies set i | 0 <= i < |apNew| :: apNew[i]
    modifies set i | 0 <= i < |apNew| :: apNew[i].data
    ensures forall i :: 0 <= i < |apNew| ==> Blank(apNew[i]) && Flagged(apNew[i], flags)
  {
    hide MemPage.Valid;
    var i := 0;
    while i < |apNew|
      invariant 0 <= i <= |apNew|
      invariant forall x :: 0 <= x < i ==> Blank(apNew[x]) && Flagged(apNew[x], flags)
    {
      apNew[i].ZeroPage(flags);
      i := i + 1;
    }
  }

  // ------------------------------------------------------------ new pages in ascending order

  ghost predicate Matching(pager: map<nat, MemPage>, pgnos: seq<nat>, pages: seq<MemPage>) {
    && |pgnos| == |pages| && (forall i, j :: 0 <= i < j < |pgnos| ==> pgnos[i] != pgnos[j])
    && forall i :: 0 <= i < |pgnos| ==> pgnos[i] in pager && pages[i] == pager[pgnos[i]]
  }

  method SortPages(pgnoNew: array<nat>, apNew: array<MemPage>, ghost pager: map<nat, MemPage>)
    requires pgnoNew.Length == apNew.Length && Matching(pager, pgnoNew[..], apNew[..])
    modifies pgnoNew, apNew
    ensures Matching(pager, pgnoNew[..], apNew[..]) && multiset(pgnoNew[..]) == multiset(old(pgnoNew[..]))
    ensures forall i, j :: 0 <= i < j < pgnoNew.Length ==> pgnoNew[i] < pgnoNew[j]
  {
    hide Matching, SortedTo;
    var i := 0;
    NoneSorted(pgnoNew[..]);
    while i < pgnoNew.Length - 1
      invariant 0 <= i && (i < pgnoNew.Length || i == 0) && |pgnoNew[..]| == |apNew[..]|
      invariant Matching(pager, pgnoNew[..], apNew[..]) && multiset(pgnoNew[..]) == multiset(old(pgnoNew[..]))
      invariant SortedTo(pgnoNew[..], i)
    {
      var minI := Smallest(pgnoNew, i);
      SwapStep(pager, pgnoNew[..], apNew[..], i, minI);
      SwapAt(pgnoNew, apNew, i, minI);
      i := i + 1;
    }
    AllSorted(pgnoNew[..], i);
  }

  method SwapAt(pgnoNew: array<nat>, apNew: array<MemPage>, i: nat, j: nat)
    requires i <= j < pgnoNew.Length == apNew.Length
    modifies pgnoNew, apNew
    ensures pgnoNew[..] == old(pgnoNew[..])[i := old(pgnoNew[j])][j := old(pgnoNew[i])]
    ensures apNew[..] == old(apNew[..])[i := old(apNew[j])][j := old(apNew[i])]
  {
    if j > i {
      pgnoNew[i], pgnoNew[j] := pgnoNew[j], pgnoNew[i];
      apNew[i], apNew[j] := apNew[j], apNew[i];
    }
  }

  ghost predicate SortedTo(pgnos: seq<nat>, i: nat) {
    forall x, y :: 0 <= x < i && x < y < |pgnos| ==> pgnos[x] < pgnos[y]
  }

  lemma {:induction false} NoneSorted(pgnos: seq<nat>)
    ensures SortedTo(pgnos, 0)
  {}

  lemma {:induction false} AllSorted(pgnos: seq<nat>, i: nat)
    requires SortedTo(pgnos, i) && i + 1 >= |pgnos|
    ensures forall x, y :: 0 <= x < y < |pgnos| ==> pgnos[x] < pgnos[y]
  {}

  method Smallest(pgnoNew: array<nat>, i: nat) returns (minI: nat)
    requires i < pgnoNew.Length
    ensures i <= minI < pgnoNew.Length && forall y :: i <= y < pgnoNew.Length ==> pgnoNew[minI] <= pgnoNew[y]
  {
    var minV, j := pgnoNew[i], i + 1;
    minI := i;
    while j < pgnoNew.Length
      invariant i < j <= pgnoNew.Length && i <= minI < pgnoNew.Length && minV == pgnoNew[minI]
      invariant forall y :: i <= y < j ==> minV <= pgnoNew[y]
    {
      if pgnoNew[j] < minV {
        minI, minV := j, pgnoNew[j];
      }
      j := j + 1;
    }
  }

  lemma {:induction false} SwapStep(pager: map<nat, MemPage>, pgnos: seq<nat>, pages: seq<MemPage>, i: nat, j: nat)
    requires |pgnos| == |pages| && Matching(pager, pgnos, pages) && SortedTo(pgnos, i) && i <= j < |pgnos|
    requires forall y :: i <= y < |pgnos| ==> pgnos[j] <= pgnos[y]
    ensures var swapped := pgnos[i := pgnos[j]][j := pgnos[i]];
            && Matching(pager, swapped, pages[i := pages[j]][j := pages[i]])
            && multiset(swapped) == multiset(pgnos) && SortedTo(swapped, i + 1)
  {
    var swapped := pgnos[i := pgnos[j]][j := pgnos[i]];
    forall x, y | 0 <= x < i + 1 && x < y < |swapped| ensures swapped[x] < swapped[y] {
      if x == i {
        assert pgnos[j] <= pgnos[if y == j then i else y];
      }
    }
  }

  // ------------------------------------------------------------ the gathered cells

  ghost predicate GoodCells(kind: CellKind, leafData: bool, room: nat, cells: seq<seq<Byte>>) {
    Whole(kind, cells) && AllSizable(kind, leafData, room, cells)
  }

  /** Dividers that are of a size to be cells of the level below, pointer or no pointer. */
  ghost predicate GoodDividers(leaf: bool, room: nat, cells: seq<seq<Byte>>) {
    forall i :: 0 <= i < |cells| ==> (if leaf then |cells[i]| >= 8 && 2 * (|cells[i]| - 2) <= room
                                      else 2 * (|cells[i]| + 2) <= room)
  }

  lemma {:induction false} GoodDivider(kind: CellKind, room: nat, right: seq<Byte>, c: seq<Byte>)
    requires kind.Valid() && CellSize(kind.(leaf := false), c) == |c| && |right| == if kind.leaf then 0 else 4
    requires if kind.leaf then |c| >= 8 && 2 * (|c| - 2) <= room else 2 * (|c| + 2) <= room
    ensures CellSize(kind, right + Rest4(c)) == |right + Rest4(c)| && Sizable(kind, false, room, right + Rest4(c))
  {
    hide CellSize, NaturalSize;
    CellAtLeast(kind.(leaf := false), c);
    if kind.leaf {
      assert right + c[4..] == c[4..];
      DividerOnLeaf(kind, c);
    } else {
      assert kind.(leaf := false) == kind;
      assert (right + c[4..])[4..] == c[4..];
      SameFront(kind, c, right + c[4..]);
    }
  }

  lemma {:induction false} CellAtLeast(kind: CellKind, c: seq<Byte>)
    requires kind.Valid()
    ensures CellSize(kind, c) >= 4
  {}

  lemma {:induction false} GatherGood(kind: CellKind, leafData: bool, room: nat, nodes: seq<Node>, keys: seq<seq<Byte>>,
                                      cells: seq<seq<Byte>>, from: nat, n: nat)
    requires kind.Valid() && n <= |nodes| == |keys| + 1 && from + |keys| <= |cells| && keys == Keys(cells, from, |keys|)
    requires forall i :: 0 <= i < |nodes| ==> GoodCells(kind, leafData, room, nodes[i].cells)
                                              && |nodes[i].right| == (if kind.leaf then 0 else 4)
    requires leafData || (Whole(kind.(leaf := false), cells) && GoodDividers(kind.leaf, room, cells))
    ensures GoodCells(kind, leafData, room, Gather(leafData, nodes, keys, n))
    decreases n
  {
    hide CellSize, NaturalSize, Sizable;
    if n > 1 {
      GatherGood(kind, leafData, room, nodes, keys, cells, from, n - 1);
      if !leafData {
        GoodDivider(kind, room, nodes[n - 2].right, cells[from + n - 2]);
      }
    }
    if n > 0 {
      assert GoodCells(kind, leafData, room, nodes[n - 1].cells);
    }
  }

  lemma {:induction false} GoodModest(kind: CellKind, leafData: bool, room: nat, cells: seq<seq<Byte>>)
    requires GoodCells(kind, leafData, room, cells)
    ensures Modest(Sizes(cells), room, leafData) && Whole(kind, cells)
            && (kind.leaf && !leafData ==> Unrounded(kind, cells))
    ensures Shaped(kind.leaf, cells)
  {
    hide CellSize, NaturalSize;
    forall i | 0 <= i < |cells| ensures Sizable(kind, leafData, room, cells[i]) {}
  }

  /** The overfull page taken apart. */
  lemma {:induction false} BurstPage(p: MemPage, leafData: bool)
    returns (a: seq<seq<Byte>>, over: seq<seq<Byte>>, b: seq<seq<Byte>>)
    requires p.Valid() && Burst(p.overflow, leafData) && AllSizable(p.kind, leafData, Room(p), p.Logical())
             && (leafData ==> p.kind.leaf)
    ensures p.Logical() == a + over + b && Overfull(p.kind.leaf, leafData, Room(p), a, over, b)
  {
    hide CellSize, NaturalSize, MemPage.Valid, MemPage.Logical, Weight, Inserted;
    PageWeight(p);
    LogicalIs(p);
    if p.overflow == [] {
      a, over, b := p.Contents(), [], [];
      NothingInserted(p.Contents(), []);
      WeightOne([]);
      assert a + over + b == a;
    } else {
      var i := p.overflow[0].idx;
      BurstInserted(p.Contents(), p.overflow, leafData);
      a, over, b := p.Contents()[..i], CellsOf(p.overflow), p.Contents()[i..];
      WeightAppend(a, b);
      assert p.Contents() == a + b;
    }
    SizableOverfull(p.kind, leafData, Room(p), a, over, b);
  }

  lemma {:induction false} SizableOverfull(kind: CellKind, leafData: bool, room: nat, a: seq<seq<Byte>>,
                                           over: seq<seq<Byte>>, b: seq<seq<Byte>>)
    requires AllSizable(kind, leafData, room, a + over + b) && Weight(a) + Weight(b) <= room && (leafData ==> kind.leaf)
    requires |over| <= if leafData then 1 else 4
    ensures Overfull(kind.leaf, leafData, room, a, over, b)
  {
    hide NaturalSize, Weight;
    var all := a + over + b;
    assert forall j :: 0 <= j < |over| ==> over[j] == all[|a| + j];
    assert forall j :: 0 <= j < |b| ==> b[j] == all[|a| + |over| + j];
    SizableModest(kind, leafData, room, all, |a|, |a| + |over|);
    assert all[|a|..|a| + |over|] == over;
  }

  lemma {:induction false} LogicalIs(p: MemPage)
    requires p.Valid()
    ensures AllWithin(p.cells, p.data.Length) && LogicalOk(|p.cells|, p.overflow)
    ensures |p.Contents()| == |p.cells| && p.Logical() == Inserted(p.Contents(), p.overflow)
  {
    hide Inserted;
  }

  lemma {:induction false} SizableModest(kind: CellKind, leafData: bool, room: nat, cells: seq<seq<Byte>>, i: nat,
                                         j: nat)
    requires AllSizable(kind, leafData, room, cells) && i <= j <= |cells|
    ensures Modest(Sizes(cells[i..j]), room, leafData)
  {
    hide NaturalSize;
    var part := cells[i..j];
    forall x | 0 <= x < |part| ensures Sizable(kind, leafData, room, part[x]) {
      assert part[x] == cells[i + x];
    }
  }

  /** The neighbours' cells can be divided among at most two pages more. */
  lemma {:induction false} Divisible(pager: map<nat, MemPage>, kids: seq<nat>, nodes: seq<Node>, idx: nat,
                                     leafData: bool, nxDiv: nat, nOld: nat, keys: seq<seq<Byte>>, kind: CellKind,
                                     room: nat)
    returns (cuts: seq<nat>)
    requires Family(pager, kids, nodes, idx, leafData) && nxDiv <= idx < nxDiv + nOld <= |kids| && |keys| == nOld - 1
    requires KindOk(pager, kind, room) && (leafData ==> kind.leaf)
    ensures Legal(Sizes(Gather(leafData, nodes[nxDiv..nxDiv + nOld], keys, nOld)), room, leafData, cuts)
    ensures |cuts| <= nOld + 2
  {
    hide MemPage.Valid, MemPage.Logical, Weight, Sizes, Gather, Legal, Overfull, Holds, AllSizable;
    var sibs, p := nodes[nxDiv..nxDiv + nOld], idx - nxDiv;
    var full := pager[kids[idx]];
    HoldsFacts(full, nodes[idx]);
    var a, over, b := BurstPage(full, leafData);
    forall i | 0 <= i < |sibs| && i != p ensures Weight(sibs[i].cells) <= room {
      var page := pager[kids[nxDiv + i]];
      HoldsFacts(page, nodes[nxDiv + i]);
      PageWeight(page);
      LogicalIs(page);
      NothingInserted(page.Contents(), page.overflow);
    }
    cuts := TwoMorePages(kind.leaf, leafData, room, sibs, keys, p, a, over, b);
  }

  // ------------------------------------------------------------ the parent afterwards

  ghost function AllKeys(cells: seq<seq<Byte>>): (r: seq<seq<Byte>>) { Keys(cells, 0, |cells|) }

  /** The parent's cells `l` after new dividers, and its right child: some neighbouring children, and the keys
      between them, have been replaced. */
  ghost predicate Replaced(before: seq<seq<Byte>>, right: seq<Byte>, after: seq<seq<Byte>>, right': seq<Byte>,
                           nxDiv: nat, nOld: nat, pgnos: seq<nat>, keys: seq<seq<Byte>>)
    requires 0 < nOld && nxDiv + nOld <= |before| + 1
  {
    && Shaped(false, before) && Shaped(false, after) && |right| == |right'| == 4
    && Kids(after, right') == Kids(before, right)[..nxDiv] + pgnos + Kids(before, right)[nxDiv + nOld..]
    && AllKeys(after) == AllKeys(before)[..nxDiv] + keys + AllKeys(before)[nxDiv + nOld - 1..]
  }

  lemma {:induction false} ReplacedBy(before: seq<seq<Byte>>, right: seq<Byte>, nxDiv: nat, nOld: nat, pgnos: seq<nat>,
                                      keys: seq<seq<Byte>>, l: seq<seq<Byte>>, after: seq<seq<Byte>>, right': seq<Byte>)
    requires 0 < nOld && nxDiv + nOld <= |before| + 1 && |pgnos| == |keys| + 1
             && forall i :: 0 <= i < |pgnos| ==> pgnos[i] < TWO32
    requires Shaped(false, before) && |right| == 4
    requires l == before[..nxDiv] + Dividers(pgnos, keys) + before[nxDiv + nOld - 1..]
    requires var at := nxDiv + |keys|;
             if at == |l| then after == l && right' == Four(pgnos[|keys|])
             else at < |l| && after == l[at := Four(pgnos[|keys|]) + Rest4(l[at])] && right' == right
    ensures Replaced(before, right, after, right', nxDiv, nOld, pgnos, keys)
  {
    hide Four, Num, Dividers, Kids, AllKeys;
    var at, k := nxDiv + |keys|, |keys|;
    assert |l| == |before| - (nOld - 1) + k;
    forall i | 0 <= i < |after| ensures AfterCell(before, nxDiv, nOld, pgnos, keys, after[i], i) {
      ReplacedCell(before, nxDiv, nOld, pgnos, keys, l, i);
    }
    ReplacedKids(before, right, nxDiv, nOld, pgnos, keys, after, right');
    ReplacedKeys(before, nxDiv, nOld, pgnos, keys, after);
  }

  /** What the `i`-th cell of the parent is afterwards. */
  ghost predicate AfterCell(before: seq<seq<Byte>>, nxDiv: nat, nOld: nat, pgnos: seq<nat>, keys: seq<seq<Byte>>,
                            c: seq<Byte>, i: nat)
    requires 0 < nOld && nxDiv + nOld <= |before| + 1 && |pgnos| == |keys| + 1
             && forall i :: 0 <= i < |pgnos| ==> pgnos[i] < TWO32
  {
    var at := nxDiv + |keys|;
    && |c| >= 4 && i < |before| - (nOld - 1) + |keys|
    && (i < nxDiv ==> c == before[i])
    && (nxDiv <= i <= at ==> c[..4] == Four(pgnos[i - nxDiv]))
    && (nxDiv <= i < at ==> Rest4(c) == keys[i - nxDiv])
    && (i == at ==> Rest4(c) == Rest4(before[nxDiv + nOld - 1]))
    && (i > at ==> c == before[i - |keys| + nOld - 1])
  }

  lemma {:induction false} ReplacedKeys(before: seq<seq<Byte>>, nxDiv: nat, nOld: nat, pgnos: seq<nat>,
                                        keys: seq<seq<Byte>>, after: seq<seq<Byte>>)
    requires 0 < nOld && nxDiv + nOld <= |before| + 1 && |pgnos| == |keys| + 1
             && forall i :: 0 <= i < |pgnos| ==> pgnos[i] < TWO32
    requires |after| == |before| - (nOld - 1) + |keys|
    requires forall i :: 0 <= i < |after| ==> AfterCell(before, nxDiv, nOld, pgnos, keys, after[i], i)
    ensures AllKeys(after) == AllKeys(before)[..nxDiv] + keys + AllKeys(before)[nxDiv + nOld - 1..]
  {
    hide Four;
    var x, y := AllKeys(after), AllKeys(before)[..nxDiv] + keys + AllKeys(before)[nxDiv + nOld - 1..];
    forall i | 0 <= i < |x| ensures x[i] == y[i] {
      assert AfterCell(before, nxDiv, nOld, pgnos, keys, after[i], i);
    }
  }

  lemma {:induction false} ReplacedCell(before: seq<seq<Byte>>, nxDiv: nat, nOld: nat, pgnos: seq<nat>,
                                        keys: seq<seq<Byte>>, l: seq<seq<Byte>>, i: nat)
    requires 0 < nOld && nxDiv + nOld <= |before| + 1 && |pgnos| == |keys| + 1
             && forall i :: 0 <= i < |pgnos| ==> pgnos[i] < TWO32
    requires Shaped(false, before) && l == before[..nxDiv] + Dividers(pgnos, keys) + before[nxDiv + nOld - 1..]
             && i < |l|
    ensures |l[i]| >= 4
    ensures i < nxDiv ==> l[i] == before[i]
    ensures nxDiv <= i < nxDiv + |keys| ==> l[i][..4] == Four(pgnos[i - nxDiv]) && Rest4(l[i]) == keys[i - nxDiv]
    ensures i >= nxDiv + |keys| ==> l[i] == before[i - (nxDiv + |keys|) + nxDiv + nOld - 1]
    ensures forall x: seq<Byte>, y: seq<Byte> :: |x| == 4 ==> (x + y)[..4] == x && Rest4(x + y) == y
  {
    hide Four;
    if nxDiv <= i < nxDiv + |keys| {
      assert l[i] == Four(pgnos[i - nxDiv]) + keys[i - nxDiv];
    }
  }

  lemma {:induction false} ReplacedKids(before: seq<seq<Byte>>, right: seq<Byte>, nxDiv: nat, nOld: nat,
                                        pgnos: seq<nat>, keys: seq<seq<Byte>>, after: seq<seq<Byte>>, right': seq<Byte>)
    requires 0 < nOld && nxDiv + nOld <= |before| + 1 && |pgnos| == |keys| + 1
             && forall i :: 0 <= i < |pgnos| ==> pgnos[i] < TWO32
    requires Shaped(false, before) && |right| == 4 && Shaped(false, after) && |right'| == 4
    requires |after| == |before| - (nOld - 1) + |keys|
    requires forall i :: 0 <= i < |after| ==> AfterCell(before, nxDiv, nOld, pgnos, keys, after[i], i)
    requires right' == if nxDiv + |keys| == |after| then Four(pgnos[|keys|]) else right
    ensures Kids(after, right') == Kids(before, right)[..nxDiv] + pgnos + Kids(before, right)[nxDiv + nOld..]
  {
    hide Four, Num;
    var x, y := Kids(after, right'), Kids(before, right)[..nxDiv] + pgnos + Kids(before, right)[nxDiv + nOld..];
    forall i | 0 <= i < |x| ensures x[i] == y[i] {
      assert i < |after| ==> AfterCell(before, nxDiv, nOld, pgnos, keys, after[i], i);
      if nxDiv <= i <= nxDiv + |keys| {
        NumFour(pgnos[i - nxDiv]);
      }
    }
  }

  /** Point the parent to the last of the new pages. */
  method LinkLast(parent: MemPage, at: nat, pgno: nat)
    requires parent.Valid() && !parent.g.leaf && at <= |parent.Logical()| && pgno < TWO32
             && parent.g.CellOffset() <= parent.data.Length
    requires at < |parent.Logical()| ==> |parent.Logical()[at]| >= 4
    modifies parent, parent.data
    ensures parent.Valid() && parent.g.CellOffset() <= parent.data.Length
    ensures var l := old(parent.Logical());
            if at == |l| then parent.Logical() == l && parent.Right() == Four(pgno)
            else parent.Logical() == l[at := Four(pgno) + Rest4(l[at])] && parent.Right() == old(parent.Right())
    ensures parent.Header().0 == old(parent.Header()).0
  {
    hide MemPage.Valid, MemPage.Logical, MemPage.Right, Four;
    LogicalCount(parent);
    if at == parent.nCell + |parent.overflow| {
      parent.PutRight(Four(pgno));
    } else {
      parent.PutChild(at, Four(pgno));
    }
  }

  // ------------------------------------------------------------ balance_nonroot

  /** Unused pages that allocation may hand out. */
  ghost predicate Unused(pager: map<nat, MemPage>, kids: seq<nat>, spare: seq<nat>) {
    |spare| >= 2 && Distinct(pager, spare) && forall i, j :: 0 <= i < |spare| && 0 <= j < |kids| ==> spare[i] != kids[j]
  }

  /** What the parent of pages to be balanced looks like. */
  ghost predicate Head(parent: MemPage, idx: nat)
    reads parent, parent.data
  {
    && parent.Valid() && parent.overflow == [] && !parent.g.leaf && idx <= parent.nCell
    && parent.g.CellOffset() <= parent.data.Length && AllWithin(parent.cells, parent.data.Length)
    && Shaped(false, parent.Contents()) && |parent.Contents()| == parent.nCell && |parent.Right()| == 4
  }

  /** The pages to write: of the available ones, old pages first and then allocated ones, the first `k`,
      zeroed and in ascending order. */
  method NewPages(pager: map<nat, MemPage>, avail: seq<nat>, k: nat, flags: Byte, ghost parent: MemPage,
                  ghost leafData: bool)
    returns (pgnoNew: seq<nat>, apNew: seq<MemPage>)
    requires Pager(parent, pager, leafData) && k <= |avail| && Distinct(pager, avail)
    modifies set n | n in avail && n in pager :: pager[n]
    modifies set n | n in avail && n in pager :: pager[n].data
    ensures |pgnoNew| == |apNew| == k && Matching(pager, pgnoNew, apNew) && Separate(apNew) && Besides(parent, apNew)
    ensures Kin(parent, apNew, leafData)
    ensures forall i :: 0 <= i < k ==> Blank(apNew[i]) && Flagged(apNew[i], flags) && pgnoNew[i] in avail
    ensures multiset(pgnoNew) == multiset(avail[..k])
    ensures forall i, j :: 0 <= i < j < k ==> pgnoNew[i] < pgnoNew[j]
  {
    hide Blank, Flagged, MemPage.Valid, Zeroable, SameKind, Matching, Separate, Besides, Kin, Pager;
    var pgnos := avail[..k];
    var pages := PagesOf(pager, pgnos);
    DistinctPrefix(pager, avail, k);
    MatchingSeparate(parent, pager, leafData, pgnos, pages);
    PagesOfFrame(pager, avail, k);
    ZeroAll(pages, flags);
    pgnoNew, apNew := Ascending(pager, pgnos, pages);
    MatchingSeparate(parent, pager, leafData, pgnoNew, apNew);
    forall i | 0 <= i < k ensures Blank(apNew[i]) && Flagged(apNew[i], flags) && pgnoNew[i] in avail {
      SamePages(pager, pgnos, pages, pgnoNew, apNew, i);
    }
  }

  /** Numbers and pages in ascending order. */
  method Ascending(ghost pager: map<nat, MemPage>, pgnos: seq<nat>, pages: seq<MemPage>)
    returns (pgnoNew: seq<nat>, apNew: seq<MemPage>)
    requires |pgnos| == |pages| && Matching(pager, pgnos, pages)
    ensures |pgnoNew| == |apNew| == |pgnos| && Matching(pager, pgnoNew, apNew) && multiset(pgnoNew) == multiset(pgnos)
    ensures forall i, j :: 0 <= i < j < |pgnoNew| ==> pgnoNew[i] < pgnoNew[j]
  {
    hide Matching;
    var numbers := new nat[|pgnos|](i requires 0 <= i < |pgnos| => pgnos[i]);
    var sorted := new MemPage[|pages|](i requires 0 <= i < |pages| => pages[i]);
    assert numbers[..] == pgnos && sorted[..] == pages;
    SortPages(numbers, sorted, pager);
    pgnoNew, apNew := numbers[..], sorted[..];
  }

  ghost predicate Distinct(pager: map<nat, MemPage>, pgnos: seq<nat>) {
    && (forall i, j :: 0 <= i < j < |pgnos| ==> pgnos[i] != pgnos[j])
    && forall i :: 0 <= i < |pgnos| ==> pgnos[i] in pager
  }

  function PagesOf(pager: map<nat, MemPage>, pgnos: seq<nat>): (r: seq<MemPage>)
    requires forall i :: 0 <= i < |pgnos| ==> pgnos[i] in pager
    ensures |r| == |pgnos| && forall i :: 0 <= i < |r| ==> r[i] == pager[pgnos[i]]
  {
    seq(|pgnos|, i requires 0 <= i < |pgnos| => pager[pgnos[i]])
  }

  lemma {:induction false} DistinctPrefix(pager: map<nat, MemPage>, avail: seq<nat>, k: nat)
    requires Distinct(pager, avail) && k <= |avail|
    ensures forall i :: 0 <= i < k ==> avail[..k][i] in pager
    ensures Matching(pager, avail[..k], PagesOf(pager, avail[..k]))
  {}

  lemma {:induction false} PagesOfFrame(pager: map<nat, MemPage>, avail: seq<nat>, k: nat)
    requires Distinct(pager, avail) && k <= |avail| && forall i :: 0 <= i < k ==> avail[..k][i] in pager
    ensures forall i :: 0 <= i < k ==> avail[i] in avail && avail[i] in pager
                                       && PagesOf(pager, avail[..k])[i] == pager[avail[i]]
  {}

  lemma {:induction false} SamePages(pager: map<nat, MemPage>, pgnos: seq<nat>, pages: seq<MemPage>, pgnos': seq<nat>,
                                     pages': seq<MemPage>, i: nat)
    requires Matching(pager, pgnos, pages) && Matching(pager, pgnos', pages') && multiset(pgnos) == multiset(pgnos')
             && i < |pgnos'|
    ensures pgnos'[i] in pgnos && exists j :: 0 <= j < |pages| && pages[j] == pages'[i]
  {
    SameMembers(pgnos', pgnos, i);
    var j :| 0 <= j < |pgnos| && pgnos[j] == pgnos'[i];
    assert pages[j] == pages'[i];
  }

  lemma {:induction false} SameMembers(x: seq<nat>, y: seq<nat>, i: nat)
    requires multiset(x) == multiset(y) && i < |x|
    ensures exists j :: 0 <= j < |y| && y[j] == x[i]
  {
    assert x[i] in multiset(x);
    assert x[i] in y;
  }

  lemma {:induction false} MatchingSeparate(parent: MemPage, pager: map<nat, MemPage>, leafData: bool, pgnos: seq<nat>,
                                            pages: seq<MemPage>)
    requires Pager(parent, pager, leafData) && Matching(pager, pgnos, pages)
    ensures Separate(pages) && Besides(parent, pages) && forall i :: 0 <= i < |pages| ==> Zeroable(pages[i])
    ensures Kin(parent, pages, leafData)
  {
    hide Zeroable, SameKind;
  }

  lemma {:induction false} FamilyMember(pager: map<nat, MemPage>, kids: seq<nat>, nodes: seq<Node>, idx: nat,
                                        leafData: bool, i: nat)
    requires Family(pager, kids, nodes, idx, leafData) && i < |kids|
    ensures kids[i] in pager && Holds(pager[kids[i]], nodes[i])
    ensures GoodCells(pager[kids[i]].kind, leafData, Room(pager[kids[i]]), nodes[i].cells)
    ensures |nodes[i].right| == if pager[kids[i]].g.leaf then 0 else 4
  {
    hide MemPage.Valid, MemPage.Logical, Sizable, CellSize;
    HoldsFacts(pager[kids[i]], nodes[i]);
    WholePage(pager[kids[i]]);
  }

  /** The chosen pages hold cells that can be divided. */
  ghost predicate Chosen(pager: map<nat, MemPage>, pgnos: seq<nat>, sibs: seq<Node>, kind: CellKind, leafData: bool,
                         room: nat)
    reads set n | n in pager :: pager[n]
    reads set n | n in pager :: pager[n].data
  {
    && |pgnos| == |sibs| > 0
    && forall i :: 0 <= i < |pgnos| ==>
         && pgnos[i] in pager && Holds(pager[pgnos[i]], sibs[i])
         && GoodCells(kind, leafData, room, sibs[i].cells) && |sibs[i].right| == (if kind.leaf then 0 else 4)
  }

  lemma {:induction false} FamilyChosen(pager: map<nat, MemPage>, kids: seq<nat>, nodes: seq<Node>, idx: nat,
                                        leafData: bool, nxDiv: nat, nOld: nat, kind: CellKind, room: nat)
    requires Family(pager, kids, nodes, idx, leafData) && nxDiv + nOld <= |kids| && 0 < nOld
             && KindOk(pager, kind, room)
    ensures Chosen(pager, kids[nxDiv..nxDiv + nOld], nodes[nxDiv..nxDiv + nOld], kind, leafData, room)
  {
    hide Holds, GoodCells, AllSizable, Burst, Family;
    FamilySize(pager, kids, nodes, idx, leafData);
    var pgnos, sibs := kids[nxDiv..nxDiv + nOld], nodes[nxDiv..nxDiv + nOld];
    forall i | 0 <= i < nOld
      ensures pgnos[i] in pager && Holds(pager[pgnos[i]], sibs[i])
      ensures GoodCells(kind, leafData, room, sibs[i].cells) && |sibs[i].right| == (if kind.leaf then 0 else 4)
    {
      FamilyPage(pager, kids, nodes, idx, leafData, nxDiv + i, kind, room);
    }
  }

  lemma {:induction false} FamilyPage(pager: map<nat, MemPage>, kids: seq<nat>, nodes: seq<Node>, idx: nat,
                                      leafData: bool, i: nat, kind: CellKind, room: nat)
    requires Family(pager, kids, nodes, idx, leafData) && i < |kids| && KindOk(pager, kind, room)
    ensures kids[i] in pager && Holds(pager[kids[i]], nodes[i])
    ensures GoodCells(kind, leafData, room, nodes[i].cells) && |nodes[i].right| == (if kind.leaf then 0 else 4)
  {
    hide Holds, GoodCells, AllSizable, Burst, Family;
    FamilySize(pager, kids, nodes, idx, leafData);
    FamilyMember(pager, kids, nodes, idx, leafData, i);
    HoldsFacts(pager[kids[i]], nodes[i]);
    KindLeaf(pager[kids[i]]);
  }

  /** The first half: gather the cells of the chosen pages, and find out how to divide them. */
  method Plan(parent: MemPage, pager: map<nat, MemPage>, pgnoOld: seq<nat>, leafData: bool, nxDiv: nat,
              ghost sibs: seq<Node>, ghost other: seq<nat>, ghost kind: CellKind, room: nat)
    returns (apCell: seq<seq<Byte>>, cuts: seq<nat>, right: seq<Byte>, ghost keys: seq<seq<Byte>>)
    requires Head(parent, 0) && nxDiv + |pgnoOld| <= parent.nCell + 1
    requires Pager(parent, pager, leafData) && KindOk(pager, kind, room)
             && Chosen(pager, pgnoOld, sibs, kind, leafData, room)
    requires var keys := Keys(parent.Contents(), nxDiv, |pgnoOld| - 1);
             Legal(Sizes(Gather(leafData, sibs, keys, |pgnoOld|)), room, leafData, other) && |other| <= NB + 2
    requires leafData || GoodDividers(kind.leaf, room, parent.Contents())
    modifies parent, parent.data
    ensures keys == old(Keys(parent.Contents(), nxDiv, |pgnoOld| - 1))
    ensures apCell == Gather(leafData, sibs, keys, |pgnoOld|)
    ensures right == sibs[|sibs| - 1].right && |right| == if kind.leaf then 0 else 4
    ensures Level(kind, leafData, room, apCell, cuts) && 0 < |cuts| <= |other|
    ensures apCell != [] ==> NonEmpty(cuts, leafData)
    ensures Modest(Sizes(apCell), room, leafData)
    ensures forall any :: Legal(Sizes(apCell), room, leafData, any) ==> |cuts| <= |any|
    ensures AllWithin(parent.cells, parent.data.Length) && parent.g.CellOffset() <= parent.data.Length
    ensures parent.Valid() && parent.overflow == [] && parent.Header() == old(parent.Header())
    ensures parent.Contents() == old(parent.Contents())[..nxDiv] + old(parent.Contents())[nxDiv + |pgnoOld| - 1..]
  {
    hide MemPage.Valid, MemPage.Logical, MemPage.Contents, MemPage.Right, CellSize, Holds, Gather, Legal, Modest, Sizes,
         AllSizable, SameKind, GoodCells, GoodDividers, Whole, Keys, Unrounded, Zeroable;
    ghost var cells := parent.Contents();
    var n := |pgnoOld|;
    var apOld := PagesOf(pager, pgnoOld);
    assert apOld[n - 1] == pager[pgnoOld[n - 1]];
    HoldsFacts(apOld[n - 1], sibs[n - 1]);
    right := apOld[n - 1].Right();
    PlanKin(parent, pager, leafData, pgnoOld, apOld);
    WholeParent(parent, pager, leafData, kind, pgnoOld[0]);
    var szCell;
    apCell, szCell, keys := GatherCells(parent, nxDiv, apOld, leafData, sibs);
    PageFacts(parent);
    GatherGood(kind, leafData, room, sibs, keys, cells, nxDiv, n);
    GoodModest(kind, leafData, room, apCell);
    ghost var full;
    cuts, full := Divide(szCell, room, leafData, other);
    EmptyLegal(Sizes(apCell), room, leafData);
  }

  lemma {:induction false} EmptyLegal(sz: seq<nat>, room: nat, leafData: bool)
    ensures sz == [] ==> Legal(sz, room, leafData, [0])
  {
    if sz == [] {
      LoadNone(sz, 0);
      assert PageOk(0, [0], leafData, 0) && PageFits(sz, room, leafData, [0], 0);
    }
  }

  lemma {:induction false} KindLeaf(p: MemPage)
    requires p.Valid()
    ensures p.kind.leaf == p.g.leaf
  {}

  lemma {:induction false} PlanKin(parent: MemPage, pager: map<nat, MemPage>, leafData: bool, pgnos: seq<nat>,
                                   pages: seq<MemPage>)
    requires Pager(parent, pager, leafData) && |pgnos| == |pages|
             && forall i :: 0 <= i < |pgnos| ==> pgnos[i] in pager && pages[i] == pager[pgnos[i]]
    ensures Kin(parent, pages, leafData) && Besides(parent, pages)
  {
    hide SameKind, Zeroable;
  }

  lemma {:induction false} WholeParent(parent: MemPage, pager: map<nat, MemPage>, leafData: bool, kind: CellKind,
                                       n: nat)
    requires Head(parent, 0) && Pager(parent, pager, leafData) && n in pager && pager[n].kind == kind
    ensures kind.Valid() && (leafData ==> kind.leaf) && (leafData || Whole(kind.(leaf := false), parent.Contents()))
  {
    hide CellSize;
    WholePage(parent);
    LogicalIs(parent);
    NothingInserted(parent.Contents(), []);
  }

  lemma {:induction false} ChosenSiblings(pager: map<nat, MemPage>, pgnos: seq<nat>, sibs: seq<Node>, kind: CellKind,
                                          leafData: bool, room: nat, keys: seq<seq<Byte>>)
    requires Chosen(pager, pgnos, sibs, kind, leafData, room) && |keys| == |sibs| - 1
    ensures Siblings(kind.leaf, sibs, keys)
  {
    hide Holds, Modest, Unrounded, Whole;
    forall i | 0 <= i < |sibs| ensures Shaped(kind.leaf, sibs[i].cells)
        && |sibs[i].right| == (if kind.leaf then 0 else 4) {
      assert GoodCells(kind, leafData, room, sibs[i].cells);
      GoodModest(kind, leafData, room, sibs[i].cells);
    }
  }

  /** The meaning of the siblings is kept: the same cells and child pages in order; where leaves keep
      all data, the same cells, and for each divider the key of the cell before it. */
  ghost predicate Kept(kind: CellKind, leafData: bool, sibs: seq<Node>, oldKeys: seq<seq<Byte>>, nodes: seq<Node>,
                       keys: seq<seq<Byte>>) {
    && Siblings(kind.leaf, sibs, oldKeys) && Siblings(kind.leaf, nodes, keys)
    && (if leafData then Concat(nodes) == Concat(sibs)
             && forall i :: 0 <= i < |keys| ==> KeyOfLast(kind, nodes[i], keys[i])
        else Group(kind.leaf, nodes, keys) == Group(kind.leaf, sibs, oldKeys))
  }

  lemma {:induction false} DividedKept(kind: CellKind, leafData: bool, sibs: seq<Node>, oldKeys: seq<seq<Byte>>,
                                       cuts: seq<nat>, nodes: seq<Node>, keys: seq<seq<Byte>>)
    requires Siblings(kind.leaf, sibs, oldKeys) && (leafData ==> kind.leaf)
    requires Divided(kind.leaf, leafData, Gather(leafData, sibs, oldKeys, |sibs|), cuts, sibs[|sibs| - 1].right, nodes,
                     keys)
    requires leafData ==> forall i :: 0 <= i < |keys| ==> KeyOfLast(kind, nodes[i], keys[i])
    ensures Kept(kind, leafData, sibs, oldKeys, nodes, keys)
  {
    hide Gather, Group, Concat, KeyOfLast, Divided;
    DividedSiblings(kind.leaf, leafData, Gather(leafData, sibs, oldKeys, |sibs|), cuts, sibs[|sibs| - 1].right, nodes,
                    keys);
    if leafData {
      assert sibs[|sibs| - 1].right == [];
      SameLeaves(sibs, oldKeys, cuts, nodes, keys);
    } else {
      SameMeaning(kind.leaf, sibs, oldKeys, cuts, nodes, keys);
    }
  }

  lemma {:induction false} FilledNodes(leaf: bool, leafData: bool, cells: seq<seq<Byte>>, cuts: seq<nat>,
                                       right: seq<Byte>, nodes: seq<Node>, keys: seq<seq<Byte>>)
    requires Divided(leaf, leafData, cells, cuts, right, nodes, keys) && NonEmpty(cuts, leafData)
    ensures forall i :: 0 <= i < |nodes| ==> nodes[i].cells != []
  {
    forall i | 0 <= i < |nodes| ensures nodes[i].cells != [] {
      assert PageDivided(leaf, leafData, cells, cuts, right, nodes, keys, i) && PageFilled(cuts, leafData, i);
    }
  }

  /** Of the chosen siblings and of unused pages, as many as needed are rewritten; the parent is told. */
  method Rewrite(parent: MemPage, pager: map<nat, MemPage>, avail: seq<nat>, nxDiv: nat, apCell: seq<seq<Byte>>,
                 cuts: seq<nat>, leafData: bool, right: seq<Byte>, flags: Byte, ghost kind: CellKind, ghost room: nat)
    returns (pgnoNew: seq<nat>, ghost nodes: seq<Node>, ghost keys: seq<seq<Byte>>)
    requires Head(parent, 0) && nxDiv <= parent.nCell && Pager(parent, pager, leafData) && Distinct(pager, avail)
             && KindOk(pager, kind, room)
    requires 0 < |cuts| <= |avail| && |cuts| <= NB + 2 && Level(kind, leafData, room, apCell, cuts)
             && |right| == if kind.leaf then 0 else 4
    modifies parent, parent.data
    modifies set n | n in avail && n in pager :: pager[n]
    modifies set n | n in avail && n in pager :: pager[n].data
    ensures |pgnoNew| == |nodes| == |cuts| == |keys| + 1 && Distinct(pager, pgnoNew)
    ensures forall i :: 0 <= i < |pgnoNew| ==>
              pgnoNew[i] in avail && pgnoNew[i] < TWO32 && Holds(pager[pgnoNew[i]], nodes[i])
              && pager[pgnoNew[i]].overflow == [] && Flagged(pager[pgnoNew[i]], flags)
    ensures forall i, j :: 0 <= i < j < |pgnoNew| ==> pgnoNew[i] < pgnoNew[j]
    ensures multiset(pgnoNew) == multiset(avail[..|cuts|])
    ensures Divided(kind.leaf, leafData, apCell, cuts, right, nodes, keys)
    ensures leafData ==> forall i :: 0 <= i < |keys| ==> KeyOfLast(kind, nodes[i], keys[i])
    ensures parent.Valid() && parent.g.CellOffset() <= parent.data.Length
    ensures var l := old(parent.Contents())[..nxDiv] + Dividers(pgnoNew, keys) + old(parent.Contents())[nxDiv..];
            var at := nxDiv + |keys|;
            if at == |l| then parent.Logical() == l && parent.Right() == Four(pgnoNew[|keys|])
            else parent.Logical() == l[at := Four(pgnoNew[|keys|]) + Rest4(l[at])]
                 && parent.Right() == old(parent.Right())
    ensures parent.Header().0 == old(parent.Header()).0
  {
    hide MemPage.Valid, MemPage.Logical, MemPage.Contents, MemPage.Right, CellSize, Holds, Blank, Flagged, Level,
         Divided, KeyOfLast, Four, Dividers, Shaped, SameKind, Zeroable;
    ghost var cells := parent.Contents();
    LogicalIs(parent);
    NothingInserted(parent.Contents(), parent.overflow);
    var k := |cuts|;
    var apNew;
    pgnoNew, apNew := NewPages(pager, avail, k, flags, parent, leafData);
    assert apNew[0] == pager[pgnoNew[0]];
    nodes, keys := Spread(parent, nxDiv, apNew, pgnoNew, apCell, cuts, leafData, right, flags);
    CellAfter(cells, nxDiv, pgnoNew, keys);
    LinkLast(parent, nxDiv + k - 1, pgnoNew[k - 1]);
  }

  /** The parent's cell after the last new divider is one it had. */
  lemma {:induction false} CellAfter(cells: seq<seq<Byte>>, n: nat, pgnos: seq<nat>, keys: seq<seq<Byte>>)
    requires Shaped(false, cells) && n <= |cells| && |keys| <= |pgnos|
             && forall i :: 0 <= i < |pgnos| ==> pgnos[i] < TWO32
    ensures var l := cells[..n] + Dividers(pgnos, keys) + cells[n..];
            n + |keys| <= |l| && (n + |keys| < |l| ==> |l[n + |keys|]| >= 4)
  {
    hide Four;
  }

  /** balance_nonroot: spread the cells of a page and its neighbours over as few pages as will
      hold them. `nodes` is what the children of the parent hold; at most the child at `idx` is overfull. */
  method Balance(parent: MemPage, idx: nat, pager: map<nat, MemPage>, spare: seq<nat>, leafData: bool,
                 ghost nodes: seq<Node>)
    returns (nxDiv: nat, nOld: nat, pgnoNew: seq<nat>, flags: Byte, ghost kids: seq<nat>, ghost kind: CellKind,
             ghost sibs: seq<Node>, ghost oldKeys: seq<seq<Byte>>, ghost newNodes: seq<Node>,
             ghost newKeys: seq<seq<Byte>>)
    requires Head(parent, idx) && Pager(parent, pager, leafData)
    requires Family(pager, Kids(parent.Contents(), parent.Right()), nodes, idx, leafData)
    requires Unused(pager, Kids(parent.Contents(), parent.Right()), spare)
    requires leafData || forall n :: n in pager ==> GoodDividers(pager[n].kind.leaf, Room(pager[n]), parent.Contents())
    modifies parent, parent.data
    modifies set n | n in pager :: pager[n]
    modifies set n | n in pager :: pager[n].data
    ensures kids == old(Kids(parent.Contents(), parent.Right()))
    ensures nxDiv <= idx < nxDiv + nOld <= |nodes| == |kids| == |old(parent.Contents())| + 1
            && (nOld == NB || nOld == |nodes| < NB)
    ensures |pgnoNew| == |newNodes| == |newKeys| + 1 <= nOld + 2 && Distinct(pager, pgnoNew)
    ensures forall i :: 0 <= i < |pgnoNew| ==> Holds(pager[pgnoNew[i]], newNodes[i]) && pager[pgnoNew[i]].overflow == []
    ensures forall i, j :: 0 <= i < j < |pgnoNew| ==> pgnoNew[i] < pgnoNew[j]
    ensures sibs == nodes[nxDiv..nxDiv + nOld] && oldKeys == old(Keys(parent.Contents(), nxDiv, nOld - 1))
    ensures Kept(kind, leafData, sibs, oldKeys, newNodes, newKeys)
    ensures Scratch(kind, leafData, oldKeys, newKeys) <= 5 * kind.usable
    ensures Gather(leafData, sibs, oldKeys, nOld) != [] ==> forall i :: 0 <= i < |newNodes| ==> newNodes[i].cells != []
    ensures parent.Valid() && parent.g.CellOffset() <= parent.data.Length
    ensures Replaced(old(parent.Contents()), old(parent.Right()), parent.Logical(), parent.Right(), nxDiv, nOld,
                     pgnoNew, newKeys)
    ensures forall i :: 0 <= i < |kids| && !(nxDiv <= i < nxDiv + nOld)
                        ==> kids[i] in pager && Holds(pager[kids[i]], nodes[i])
    ensures flags == old(FlagsOf(pager, kids[idx])) && AllFlagged(pager, pgnoNew, flags)
    ensures Reused(pgnoNew, kids[nxDiv..nxDiv + nOld] + spare)
    ensures Fewest(Sizes(Gather(leafData, sibs, oldKeys, nOld)), Room(pager[pgnoNew[0]]), leafData, |pgnoNew|)
    ensures parent.Header().0 == old(parent.Header()).0
  {
    hide MemPage.Valid, MemPage.Logical, MemPage.Contents, MemPage.Right, CellSize, Holds, SameKind, Zeroable, Family,
         Replaced, Kept, Gather, Legal, Sizes, Scratch, GoodDividers, Num, Chosen, Pager, KindOk, Siblings, Distinct,
         Unused, Keys, Kids, Room, AllFlagged, Reused, Fewest, FlagsOf;
    ghost var before, out := parent.Contents(), parent.Right();
    kids := Kids(before, out);
    FamilySize(pager, kids, nodes, idx, leafData);
    nxDiv, nOld := ChooseSiblings(parent.nCell, idx);
    var pgnoOld := ReadKids(parent, nxDiv, nOld);
    FamilyMember(pager, kids, nodes, idx, leafData, nxDiv);
    var room: nat := Room(pager[pgnoOld[0]]);
    kind := pager[pgnoOld[0]].kind;
    PagerKind(parent, pager, leafData, pgnoOld[0]);
    sibs, oldKeys := nodes[nxDiv..nxDiv + nOld], Keys(before, nxDiv, nOld - 1);
    FamilyChosen(pager, kids, nodes, idx, leafData, nxDiv, nOld, kind, room);
    ghost var other := Divisible(pager, kids, nodes, idx, leafData, nxDiv, nOld, oldKeys, kind, room);
    Available(pager, kids, nodes, idx, leafData, nxDiv, nOld, spare);
    FamilyApart(parent, pager, kids, nodes, idx, leafData, pgnoOld + spare);
    PageFlags(parent, pager, leafData, kids[idx]);
    flags := pager[pgnoOld[idx - nxDiv]].data[0];
    pgnoNew, newNodes, newKeys := BalanceChosen(parent, pager, pgnoOld, spare, leafData, nxDiv, flags, sibs, oldKeys,
                                                other, kind, room);
  }

  /** The pages are all of the kind `flags` says. */
  ghost predicate AllFlagged(pager: map<nat, MemPage>, pgnos: seq<nat>, flags: Byte)
    reads set n | n in pager :: pager[n].data
  {
    forall i :: 0 <= i < |pgnos| ==> pgnos[i] in pager && Flagged(pager[pgnos[i]], flags)
  }

  /** As many of the available pages as are needed, from the front. */
  ghost predicate Reused(pgnos: seq<nat>, avail: seq<nat>) {
    |pgnos| <= |avail| && multiset(pgnos) == multiset(avail[..|pgnos|])
  }

  /** No division of the cells that fits has fewer pages. */
  ghost predicate Fewest(sz: seq<nat>, room: nat, leafData: bool, n: nat) {
    forall cuts :: Legal(sz, room, leafData, cuts) ==> n <= |cuts|
  }

  lemma {:induction false} RoomNew(pager: map<nat, MemPage>, kind: CellKind, room: nat, pgnos: seq<nat>)
    requires KindOk(pager, kind, room)
    ensures forall i :: 0 <= i < |pgnos| && pgnos[i] in pager ==> Room(pager[pgnos[i]]) == room
  {}

  /** The first byte of page `n`. */
  ghost function FlagsOf(pager: map<nat, MemPage>, n: nat): Byte
    reads set n | n in pager :: pager[n].data
  {
    if n in pager && pager[n].data.Length > 0 then pager[n].data[0] else 0
  }

  lemma {:induction false} PageFlags(parent: MemPage, pager: map<nat, MemPage>, leafData: bool, n: nat)
    requires Pager(parent, pager, leafData) && n in pager
    ensures pager[n].data.Length > 0 && FlagsOf(pager, n) == pager[n].data[0]
  {
    assert SameKind(parent, pager[n], leafData) && Zeroable(pager[n]);
  }

  /** Pages with other numbers are other pages. */
  lemma {:induction false} FamilyApart(parent: MemPage, pager: map<nat, MemPage>, kids: seq<nat>, nodes: seq<Node>,
                                       idx: nat, leafData: bool, avail: seq<nat>)
    requires Family(pager, kids, nodes, idx, leafData) && Pager(parent, pager, leafData)
    ensures forall i :: 0 <= i < |kids| == |nodes| ==> kids[i] in pager && Holds(pager[kids[i]], nodes[i])
    ensures forall i, n :: 0 <= i < |kids| && kids[i] !in avail && n in avail && n in pager ==>
              pager[n] != pager[kids[i]] && pager[n].data != pager[kids[i]].data
    ensures forall i :: 0 <= i < |kids| ==> pager[kids[i]] != parent && pager[kids[i]].data != parent.data
  {
    hide Holds, AllSizable, Burst, SameKind, Zeroable;
  }

  /** The chosen pages and their dividers, gathered and written back. */
  method BalanceChosen(parent: MemPage, pager: map<nat, MemPage>, pgnoOld: seq<nat>, spare: seq<nat>, leafData: bool,
                       nxDiv: nat, flags: Byte, ghost sibs: seq<Node>, ghost oldKeys: seq<seq<Byte>>,
                       ghost other: seq<nat>, ghost kind: CellKind, room: nat)
    returns (pgnoNew: seq<nat>, ghost newNodes: seq<Node>, ghost newKeys: seq<seq<Byte>>)
    requires Head(parent, 0) && nxDiv + |pgnoOld| <= parent.nCell + 1 && |other| <= NB + 2
             && |other| <= |pgnoOld| + |spare|
    requires 0 < |sibs| == |pgnoOld| <= NB
    requires Pager(parent, pager, leafData) && KindOk(pager, kind, room)
             && Chosen(pager, pgnoOld, sibs, kind, leafData, room)
    requires oldKeys == Keys(parent.Contents(), nxDiv, |pgnoOld| - 1)
    requires Legal(Sizes(Gather(leafData, sibs, oldKeys, |pgnoOld|)), room, leafData, other)
    requires (leafData ==> kind.leaf) && (leafData || GoodDividers(kind.leaf, room, parent.Contents()))
    requires Distinct(pager, pgnoOld + spare)
    modifies parent, parent.data
    modifies set n | n in pgnoOld + spare && n in pager :: pager[n]
    modifies set n | n in pgnoOld + spare && n in pager :: pager[n].data
    ensures |pgnoNew| == |newNodes| == |newKeys| + 1 <= |other| && Distinct(pager, pgnoNew)
    ensures forall i :: 0 <= i < |pgnoNew| ==> Holds(pager[pgnoNew[i]], newNodes[i]) && pager[pgnoNew[i]].overflow == []
    ensures AllFlagged(pager, pgnoNew, flags) && Reused(pgnoNew, pgnoOld + spare)
            && Fewest(Sizes(Gather(leafData, sibs, oldKeys, |pgnoOld|)), Room(pager[pgnoNew[0]]), leafData, |pgnoNew|)
    ensures forall i, j :: 0 <= i < j < |pgnoNew| ==> pgnoNew[i] < pgnoNew[j]
    ensures parent.Header().0 == old(parent.Header()).0
    ensures Kept(kind, leafData, sibs, oldKeys, newNodes, newKeys)
    ensures Scratch(kind, leafData, oldKeys, newKeys) <= 5 * kind.usable
    ensures Gather(leafData, sibs, oldKeys, |pgnoOld|) != []
            ==> forall i :: 0 <= i < |newNodes| ==> newNodes[i].cells != []
    ensures parent.Valid() && parent.g.CellOffset() <= parent.data.Length
    ensures Replaced(old(parent.Contents()), old(parent.Right()), parent.Logical(), parent.Right(), nxDiv, |pgnoOld|,
                     pgnoNew, newKeys)
  {
    hide MemPage.Valid, MemPage.Logical, MemPage.Contents, MemPage.Right, CellSize, Holds, Level, Divided, KeyOfLast,
         Four, Dividers, SameKind, Zeroable, Replaced, Kept, Gather, Legal, Sizes, Modest, Scratch, GoodDividers, Num,
         Chosen, NonEmpty, Pager, KindOk, Siblings, Flagged;
    ghost var before, out, n := parent.Contents(), parent.Right(), |pgnoOld|;
    ChosenSiblings(pager, pgnoOld, sibs, kind, leafData, room, oldKeys);
    RoomOf(parent, pager, leafData, pgnoOld, sibs, kind, room);
    var apCell, cuts, right;
    ghost var gone;
    apCell, cuts, right, gone := Plan(parent, pager, pgnoOld, leafData, nxDiv, sibs, other, kind, room);
    HeadAgain(parent, before, nxDiv, n);
    ghost var mid := parent.Contents();
    Halves(before, nxDiv, nxDiv + n - 1);
    pgnoNew, newNodes, newKeys := Rewrite(parent, pager, pgnoOld + spare, nxDiv, apCell, cuts, leafData, right, flags,
                                          kind, room);
    DividedKept(kind, leafData, sibs, oldKeys, cuts, newNodes, newKeys);
    ScratchFits(kind, leafData, room, sibs, oldKeys, cuts, right, newNodes, newKeys);
    ReplacedBy(before, out, nxDiv, n, pgnoNew, newKeys, mid[..nxDiv] + Dividers(pgnoNew, newKeys) + mid[nxDiv..],
               parent.Logical(), parent.Right());
    RoomNew(pager, kind, room, pgnoNew);
    if apCell != [] {
      FilledNodes(kind.leaf, leafData, apCell, cuts, right, newNodes, newKeys);
    }
  }

  lemma {:induction false} RoomOf(parent: MemPage, pager: map<nat, MemPage>, leafData: bool, pgnos: seq<nat>,
                                  sibs: seq<Node>, kind: CellKind, room: nat)
    requires Pager(parent, pager, leafData) && KindOk(pager, kind, room)
             && Chosen(pager, pgnos, sibs, kind, leafData, room)
    ensures room + 8 <= kind.usable && kind.usable >= 100
  {
    hide SameKind, Holds, GoodCells;
    assert pgnos[0] in pager;
  }

  lemma {:induction false} Halves<T>(s: seq<T>, i: nat, j: nat)
    requires i <= j <= |s|
    ensures (s[..i] + s[j..])[..i] == s[..i] && (s[..i] + s[j..])[i..] == s[j..]
  {}

  lemma {:induction false} PagerKind(parent: MemPage, pager: map<nat, MemPage>, leafData: bool, n: nat)
    requires Pager(parent, pager, leafData) && n in pager
    ensures KindOk(pager, pager[n].kind, Room(pager[n])) && (leafData ==> pager[n].kind.leaf)
  {
    hide Zeroable;
  }

  lemma {:induction false} FamilySize(pager: map<nat, MemPage>, kids: seq<nat>, nodes: seq<Node>, idx: nat,
                                      leafData: bool)
    requires Family(pager, kids, nodes, idx, leafData)
    ensures |nodes| == |kids|
  {}

  /** Without its dividers the parent is in order still. */
  lemma {:induction false} HeadAgain(parent: MemPage, before: seq<seq<Byte>>, nxDiv: nat, nOld: nat)
    requires parent.Valid() && parent.overflow == [] && !parent.g.leaf && AllWithin(parent.cells, parent.data.Length)
    requires Shaped(false, before) && 0 < nOld && nxDiv + nOld <= |before| + 1
    requires parent.Contents() == before[..nxDiv] + before[nxDiv + nOld - 1..]
    ensures Head(parent, 0) && nxDiv <= parent.nCell
  {
    hide MemPage.Valid, MemPage.Contents;
    PageFacts(parent);
  }

  lemma {:induction false} Available(pager: map<nat, MemPage>, kids: seq<nat>, nodes: seq<Node>, idx: nat,
                                     leafData: bool, nxDiv: nat, nOld: nat, spare: seq<nat>)
    requires Family(pager, kids, nodes, idx, leafData) && Unused(pager, kids, spare) && nxDiv + nOld <= |kids|
    ensures Distinct(pager, kids[nxDiv..nxDiv + nOld] + spare) && |spare| >= 2
    ensures forall i :: 0 <= i < |kids| && !(nxDiv <= i < nxDiv + nOld)
                        ==> kids[i] !in kids[nxDiv..nxDiv + nOld] + spare
  {
    hide Holds, AllSizable, Burst;
  }
}
