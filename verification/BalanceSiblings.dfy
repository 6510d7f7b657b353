/** balance_nonroot on pages in memory: the cells of up to three neighbours and their dividers
    are gathered, divided anew, and written back. */
module BalanceSiblings {
  import opened Basics
  import opened BtreeCell
  import opened BtreeSpace
  import opened BtreeContents
  import opened BtreePointers
  import opened BtreeAssembly
  import opened BtreePage
  import opened BtreeDivider
  import opened BalancePacking
  import opened BalanceMeaning
  import opened BalanceBound

  /** Distinct pages do not share their bytes. */
  ghost predicate Separate(pages: seq<MemPage>) {
    forall i, j :: 0 <= i < j < |pages| ==> pages[i] != pages[j] && pages[i].data != pages[j].data
  }

  ghost predicate Besides(parent: MemPage, pages: seq<MemPage>) {
    forall i :: 0 <= i < |pages| ==> pages[i] != parent && pages[i].data != parent.data
  }

  /** The pages of one level of one tree, and their parent. */
  ghost predicate Kin(parent: MemPage, pages: seq<MemPage>, leafData: bool) {
    && !parent.kind.leaf && !parent.g.leaf
    && forall i :: 0 <= i < |pages| ==> SameKind(parent, pages[0], leafData) && pages[i].g == pages[0].g
                                        && pages[i].kind == pages[0].kind
  }

  ghost predicate SameKind(parent: MemPage, page: MemPage, leafData: bool) {
    && page.g.hdr == 0 && page.kind.leaf == page.g.leaf
    && parent.kind == (if leafData then page.kind.(leaf := false, hasData := false) else page.kind.(leaf := false))
    && (leafData ==> page.kind.leaf && page.kind.intKey)
  }

  ghost function NodeOf(p: MemPage): Node
    requires p.Valid() && p.g.CellOffset() <= p.data.Length
    reads p, p.data
  {
    Node(p.Logical(), p.Right())
  }

  ghost predicate Holds(p: MemPage, n: Node)
    reads p, p.data
  {
    p.Valid() && p.g.CellOffset() <= p.data.Length && NodeOf(p) == n
  }

  /** What follows the child pointer in interior cells. */
  ghost function Rest4(c: seq<Byte>): seq<Byte> { if |c| >= 4 then c[4..] else [] }

  ghost function Keys(cells: seq<seq<Byte>>, from: nat, n: nat): (r: seq<seq<Byte>>)
    requires from + n <= |cells|
    ensures |r| == n
    ensures forall i :: 0 <= i < n ==> r[i] == Rest4(cells[from + i])
  {
    seq(n, i requires 0 <= i < n => Rest4(cells[from + i]))
  }

  ghost predicate Whole(kind: CellKind, cells: seq<seq<Byte>>) {
    kind.Valid() && forall i :: 0 <= i < |cells| ==> CellSize(kind, cells[i]) == |cells[i]|
  }

  // ------------------------------------------------------------ gathering

  lemma {:induction false} InsertedWhole(kind: CellKind, cells: seq<seq<Byte>>, over: seq<Overflow>)
    requires Whole(kind, cells) && AllSized(kind, over) && LogicalOk(|cells|, over)
    ensures Whole(kind, Inserted(cells, over))
    decreases |over|
  {
    hide CellSize;
    if over != [] {
      InsertedWhole(kind, cells, over[..|over| - 1]);
    }
  }

  lemma {:induction false} PageFacts(p: MemPage)
    requires p.Valid()
    ensures AllWithin(p.cells, p.data.Length) && p.g.CellOffset() <= p.data.Length
            && p.nCell == |p.cells| == |p.Contents()|
    ensures p.kind.Valid() && p.g.Valid() && p.kind.leaf == p.g.leaf && p.kind.usable == p.g.usable == p.data.Length
  {
    hide CellSize, Space, Pointers, Get2, Sum;
  }

  lemma {:induction false} DropFront<T>(s: seq<T>, at: nat, i: nat)
    requires at + i < |s|
    ensures RemoveAt(s[..at] + s[at + i..], at) == s[..at] + s[at + i + 1..]
    ensures (s[..at] + s[at + i..])[at] == s[at + i]
  {}

  /** Every cell of a page is as long as its own header says. */
  lemma {:induction false} WholePage(p: MemPage)
    requires p.Valid()
    ensures Whole(p.kind, p.Logical()) && p.g.CellOffset() <= p.data.Length
  {
    hide CellSize, Space, Pointers, Get2, Inserted, Sum;
    InsertedWhole(p.kind, p.Contents(), p.overflow);
  }

  /** All cells of a page, and their sizes. */
  method AllCells(p: MemPage, apCell: seq<seq<Byte>>, szCell: seq<nat>) returns (cells: seq<seq<Byte>>, sizes: seq<nat>)
    requires p.Valid() && szCell == Sizes(apCell)
    ensures cells == apCell + p.Logical() && sizes == Sizes(cells)
  {
    hide MemPage.Valid, MemPage.Logical, CellSize;
    var j := 0;
    cells, sizes := apCell, szCell;
    LogicalCount(p);
    WholePage(p);
    ghost var all := p.Logical();
    assert all[..0] == [];
    while j < p.nCell + |p.overflow|
      invariant 0 <= j <= |all| && cells == apCell + all[..j] && sizes == Sizes(cells)
    {
      var c := p.FindOverflowCell(j);
      assert all[..j + 1] == all[..j] + [c];
      cells, sizes := cells + [c], sizes + [CellSize(p.kind, c)];
      j := j + 1;
    }
    assert all[..j] == all;
  }

  lemma {:induction false} LogicalCount(p: MemPage)
    requires p.Valid()
    ensures |p.Logical()| == p.nCell + |p.overflow|
  {}

  /** The cells before page `i` and its own divider: where page `i` starts. */
  ghost function Before(leafData: bool, nodes: seq<Node>, keys: seq<seq<Byte>>, i: nat): seq<seq<Byte>>
    requires i < |nodes| <= |keys| + 1
  {
    if i == 0 then [] else Gather(leafData, nodes, keys, i)
                           + (if leafData then [] else [nodes[i - 1].right + keys[i - 1]])
  }

  /** Take the divider at `nxDiv` out of the parent; as a cell of the level below it has the right
      child of the page before it, if that has one. */
  method TakeDivider(parent: MemPage, nxDiv: nat, right: seq<Byte>, leaf: bool) returns (cell: seq<Byte>)
    requires parent.Valid() && parent.overflow == [] && nxDiv < parent.nCell && |right| == if leaf then 0 else 4
    modifies parent, parent.data
    ensures parent.Valid() && parent.overflow == [] && parent.Header() == old(parent.Header())
    ensures parent.Contents() == RemoveAt(old(parent.Contents()), nxDiv)
    ensures cell == right + Rest4(old(parent.Contents())[nxDiv])
  {
    hide CellSize, Intact, Sum;
    WholePage(parent);
    var div := parent.FindCell(nxDiv);
    var sz := CellSize(parent.kind, div);
    parent.DropCell(nxDiv, sz);
    cell := right + div[4..];
  }

  /** Gather the cells of neighbouring pages; their dividers leave the parent. */
  method GatherCells(parent: MemPage, nxDiv: nat, apOld: seq<MemPage>, leafData: bool, ghost nodes: seq<Node>)
    returns (apCell: seq<seq<Byte>>, szCell: seq<nat>, ghost keys: seq<seq<Byte>>)
    requires parent.Valid() && parent.overflow == [] && Kin(parent, apOld, leafData) && Besides(parent, apOld)
    requires |nodes| == |apOld| > 0 && forall i :: 0 <= i < |apOld| ==> Holds(apOld[i], nodes[i])
    requires nxDiv + |apOld| - 1 <= parent.nCell
    modifies parent, parent.data
    ensures keys == old(Keys(parent.Contents(), nxDiv, |apOld| - 1))
    ensures apCell == Gather(leafData, nodes, keys, |apOld|) && szCell == Sizes(apCell)
    ensures parent.Valid() && parent.overflow == [] && parent.Header() == old(parent.Header())
    ensures parent.Contents() == old(parent.Contents())[..nxDiv] + old(parent.Contents())[nxDiv + |apOld| - 1..]
  {
    hide MemPage.Valid, MemPage.Logical, MemPage.Contents, CellSize, Gather, Sizes, MemPage.Right, MemPage.Header,
         Holds, Before, Gathering, Kin, Besides;
    PageFacts(parent);
    ghost var was, out := parent.Contents(), parent.Header();
    keys := Keys(was, nxDiv, |apOld| - 1);
    apCell, szCell := [], [];
    var i, n := 0, |apOld|;
    BeforeFirst(leafData, nodes, keys);
    StartGathering(parent, was, out, nxDiv, apOld, leafData, nodes, keys);
    while i < n
      invariant 0 <= i <= n
      invariant Gathering(parent, was, out, nxDiv, apOld, leafData, nodes, keys, apCell, szCell, i)
    {
      apCell, szCell := GatherNext(parent, was, out, nxDiv, apOld, leafData, nodes, keys, apCell, szCell, i);
      i := i + 1;
    }
    Gathered(parent, was, out, nxDiv, apOld, leafData, nodes, keys, apCell, szCell);
  }

  /** The cells of the first `i` pages have been gathered, with the dividers after them. */
  ghost predicate Gathering(parent: MemPage, was: seq<seq<Byte>>, out: (seq<Byte>, seq<Byte>), nxDiv: nat,
                            apOld: seq<MemPage>, leafData: bool, nodes: seq<Node>, keys: seq<seq<Byte>>,
                            apCell: seq<seq<Byte>>, szCell: seq<nat>, i: nat)
    requires |nodes| == |apOld| == |keys| + 1 && nxDiv + |apOld| - 1 <= |was| && i <= |apOld|
    reads parent, parent.data
    reads set j | 0 <= j < |apOld| :: apOld[j]
    reads set j | 0 <= j < |apOld| :: apOld[j].data
  {
    var n := |apOld|;
    && szCell == Sizes(apCell)
    && apCell == (if i < n then Before(leafData, nodes, keys, i) else Gather(leafData, nodes, keys, n))
    && parent.Valid() && parent.overflow == [] && AllWithin(parent.cells, parent.data.Length)
    && parent.g.CellOffset() <= parent.data.Length && parent.Header() == out
    && parent.Contents() == was[..nxDiv] + was[nxDiv + (if i < n then i else n - 1)..]
    && forall j :: 0 <= j < n ==> Holds(apOld[j], nodes[j])
  }

  lemma {:induction false} StartGathering(parent: MemPage, was: seq<seq<Byte>>, out: (seq<Byte>, seq<Byte>), nxDiv: nat,
                                          apOld: seq<MemPage>, leafData: bool, nodes: seq<Node>, keys: seq<seq<Byte>>)
    requires 0 < |nodes| == |apOld| == |keys| + 1 && nxDiv + |apOld| - 1 <= |was|
    requires parent.Valid() && parent.overflow == [] && AllWithin(parent.cells, parent.data.Length)
    requires parent.g.CellOffset() <= parent.data.Length && parent.Header() == out && parent.Contents() == was
    requires forall j :: 0 <= j < |apOld| ==> Holds(apOld[j], nodes[j])
    ensures Gathering(parent, was, out, nxDiv, apOld, leafData, nodes, keys, [], [], 0)
  {
    hide MemPage.Valid, MemPage.Contents, MemPage.Right, MemPage.Header, Holds;
    assert was == was[..nxDiv] + was[nxDiv + 0..];
  }

  lemma {:induction false} Gathered(parent: MemPage, was: seq<seq<Byte>>, out: (seq<Byte>, seq<Byte>), nxDiv: nat,
                                    apOld: seq<MemPage>, leafData: bool, nodes: seq<Node>, keys: seq<seq<Byte>>,
                                    apCell: seq<seq<Byte>>, szCell: seq<nat>)
    requires 0 < |nodes| == |apOld| == |keys| + 1 && nxDiv + |apOld| - 1 <= |was|
    requires Gathering(parent, was, out, nxDiv, apOld, leafData, nodes, keys, apCell, szCell, |apOld|)
    ensures apCell == Gather(leafData, nodes, keys, |apOld|) && szCell == Sizes(apCell)
    ensures parent.Valid() && parent.overflow == [] && AllWithin(parent.cells, parent.data.Length)
    ensures parent.g.CellOffset() <= parent.data.Length && parent.Header() == out
    ensures parent.Contents() == was[..nxDiv] + was[nxDiv + |apOld| - 1..]
  {
    hide MemPage.Valid, MemPage.Contents, MemPage.Right, MemPage.Header, Holds, Gather, Sizes;
  }

  /** One page and, unless it is the last, the divider after it. */
  method GatherNext(parent: MemPage, ghost was: seq<seq<Byte>>, ghost out: (seq<Byte>, seq<Byte>), nxDiv: nat,
                    apOld: seq<MemPage>, leafData: bool, ghost nodes: seq<Node>, ghost keys: seq<seq<Byte>>,
                    apCell: seq<seq<Byte>>, szCell: seq<nat>, i: nat)
    returns (apCell': seq<seq<Byte>>, szCell': seq<nat>)
    requires i < |nodes| == |apOld| == |keys| + 1 && nxDiv + |apOld| - 1 <= |was| && keys == Keys(was, nxDiv, |keys|)
    requires Gathering(parent, was, out, nxDiv, apOld, leafData, nodes, keys, apCell, szCell, i)
             && Besides(parent, apOld)
    modifies parent, parent.data
    ensures Gathering(parent, was, out, nxDiv, apOld, leafData, nodes, keys, apCell', szCell', i + 1)
  {
    hide MemPage.Valid, MemPage.Logical, MemPage.Contents, CellSize, Gather, Sizes, RemoveAt, MemPage.Right,
         MemPage.Header, Holds, Before, Gathering;
    GatheringFacts(parent, was, out, nxDiv, apOld, leafData, nodes, keys, apCell, szCell, i);
    HoldsFacts(apOld[i], nodes[i]);
    apCell', szCell' := AllCells(apOld[i], apCell, szCell);
    GatherOne(leafData, nodes, keys, i);
    if i < |apOld| - 1 {
      BeforeNext(leafData, nodes, keys, i + 1);
      apCell', szCell' := GatherDivider(parent, was, nxDiv, i, apOld[i].Right(), apOld[i].g.leaf, leafData, apCell',
                                        szCell');
    }
    GatheringOf(parent, was, out, nxDiv, apOld, leafData, nodes, keys, apCell', szCell', i + 1);
  }

  lemma {:induction false} GatheringFacts(parent: MemPage, was: seq<seq<Byte>>, out: (seq<Byte>, seq<Byte>), nxDiv: nat,
                                          apOld: seq<MemPage>, leafData: bool, nodes: seq<Node>, keys: seq<seq<Byte>>,
                                          apCell: seq<seq<Byte>>, szCell: seq<nat>, i: nat)
    requires |nodes| == |apOld| == |keys| + 1 && nxDiv + |apOld| - 1 <= |was| && i < |apOld|
    requires Gathering(parent, was, out, nxDiv, apOld, leafData, nodes, keys, apCell, szCell, i)
    ensures szCell == Sizes(apCell) && apCell == Before(leafData, nodes, keys, i)
    ensures parent.Valid() && parent.overflow == [] && AllWithin(parent.cells, parent.data.Length)
    ensures parent.g.CellOffset() <= parent.data.Length && parent.Header() == out
    ensures parent.Contents() == was[..nxDiv] + was[nxDiv + i..]
    ensures forall j :: 0 <= j < |apOld| ==> Holds(apOld[j], nodes[j])
  {
    hide MemPage.Valid, MemPage.Contents, MemPage.Right, MemPage.Header, Holds, Gather, Sizes, Before;
  }

  lemma {:induction false} GatheringOf(parent: MemPage, was: seq<seq<Byte>>, out: (seq<Byte>, seq<Byte>), nxDiv: nat,
                                       apOld: seq<MemPage>, leafData: bool, nodes: seq<Node>, keys: seq<seq<Byte>>,
                                       apCell: seq<seq<Byte>>, szCell: seq<nat>, i: nat)
    requires |nodes| == |apOld| == |keys| + 1 && nxDiv + |apOld| - 1 <= |was| && i <= |apOld|
    requires szCell == Sizes(apCell) && apCell == (if i < |apOld| then Before(leafData, nodes, keys, i)
                                                   else Gather(leafData, nodes, keys, |apOld|))
    requires parent.Valid() && parent.overflow == [] && AllWithin(parent.cells, parent.data.Length)
    requires parent.g.CellOffset() <= parent.data.Length && parent.Header() == out
    requires parent.Contents() == was[..nxDiv] + was[nxDiv + (if i < |apOld| then i else |apOld| - 1)..]
    requires forall j :: 0 <= j < |apOld| ==> Holds(apOld[j], nodes[j])
    ensures Gathering(parent, was, out, nxDiv, apOld, leafData, nodes, keys, apCell, szCell, i)
  {
    hide MemPage.Valid, MemPage.Contents, MemPage.Right, MemPage.Header, Holds, Gather, Sizes, Before;
  }

  /** The `i`-th of the dividers leaves the parent, and unless leaves keep all data joins the cells. */
  method GatherDivider(parent: MemPage, ghost was: seq<seq<Byte>>, nxDiv: nat, ghost i: nat, right: seq<Byte>,
                       leaf: bool, leafData: bool, apCell: seq<seq<Byte>>, szCell: seq<nat>)
    returns (cells: seq<seq<Byte>>, sizes: seq<nat>)
    requires parent.Valid() && parent.overflow == [] && AllWithin(parent.cells, parent.data.Length)
             && parent.g.CellOffset() <= parent.data.Length
    requires nxDiv + i < |was| && parent.Contents() == was[..nxDiv] + was[nxDiv + i..]
    requires |right| == (if leaf then 0 else 4) && szCell == Sizes(apCell)
    modifies parent, parent.data
    ensures parent.Valid() && parent.overflow == [] && AllWithin(parent.cells, parent.data.Length)
            && parent.g.CellOffset() <= parent.data.Length
    ensures parent.Contents() == was[..nxDiv] + was[nxDiv + i + 1..] && parent.Header() == old(parent.Header())
    ensures cells == apCell + (if leafData then [] else [right + Rest4(was[nxDiv + i])]) && sizes == Sizes(cells)
  {
    hide MemPage.Valid, MemPage.Logical, MemPage.Contents, CellSize, Sizes, RemoveAt, MemPage.Right, MemPage.Header;
    DropFront(was, nxDiv, i);
    PageFacts(parent);
    var cell := TakeDivider(parent, nxDiv, right, leaf);
    PageFacts(parent);
    if leafData {
      cells, sizes := apCell, szCell;
    } else {
      cells, sizes := apCell + [cell], SizesMore(apCell, szCell, cell);
    }
  }

  function SizesMore(apCell: seq<seq<Byte>>, szCell: seq<nat>, c: seq<Byte>): (r: seq<nat>)
    requires szCell == Sizes(apCell)
    ensures r == Sizes(apCell + [c])
  {
    szCell + [|c|]
  }

  lemma {:induction false} BeforeFirst(leafData: bool, nodes: seq<Node>, keys: seq<seq<Byte>>)
    requires 0 < |nodes| <= |keys| + 1
    ensures Before(leafData, nodes, keys, 0) == []
  {}

  lemma {:induction false} BeforeNext(leafData: bool, nodes: seq<Node>, keys: seq<seq<Byte>>, i: nat)
    requires 0 < i < |nodes| <= |keys| + 1
    ensures Before(leafData, nodes, keys, i) ==
            if leafData then Gather(leafData, nodes, keys, i)
            else Gather(leafData, nodes, keys, i) + [nodes[i - 1].right + keys[i - 1]]
  {}

  lemma {:induction false} GatherOne(leafData: bool, nodes: seq<Node>, keys: seq<seq<Byte>>, i: nat)
    requires i < |nodes| <= |keys| + 1
    ensures Gather(leafData, nodes, keys, i + 1) == Before(leafData, nodes, keys, i) + nodes[i].cells
  {}

  lemma {:induction false} HoldsFacts(p: MemPage, n: Node)
    requires Holds(p, n)
    ensures p.Valid() && p.Logical() == n.cells && p.g.CellOffset() <= p.data.Length && p.Right() == n.right
    ensures |p.Right()| == (if p.g.leaf then 0 else 4)
  {}

  // ------------------------------------------------------------ writing back

  /** Bytes for cells and their pointers on an empty page. */
  function Room(p: MemPage): nat {
    if p.g.usable >= p.g.CellOffset() then p.g.usable - p.g.CellOffset() else 0
  }

  /** A page just zeroed. */
  ghost predicate Blank(p: MemPage)
    reads p, p.data
  {
    p.Valid() && p.overflow == [] && p.cells == [] && p.free == [] && p.data[p.g.hdr + 7] == 0
    && p.g.CellOffset() <= p.data.Length
  }

  /** The kind of page, in the first byte of its header. */
  ghost predicate Flagged(p: MemPage, flags: Byte)
    reads p.data
  {
    p.g.hdr < p.data.Length && p.data[p.g.hdr] == flags
  }

  lemma {:induction false} WeightTotal(cells: seq<seq<Byte>>)
    ensures TotalSize(cells) + 2 * |cells| == Weight(cells)
  {
    if cells != [] {
      var n := |cells| - 1;
      WeightTotal(cells[..n]);
      WeightAppend(cells[..n], [cells[n]]);
      WeightOne(cells[n]);
      assert cells == cells[..n] + [cells[n]];
    } else {
      WeightOne([]);
      assert cells == [];
    }
  }

  lemma {:induction false} BlankFacts(p: MemPage)
    requires Blank(p)
    ensures p.nFree == p.g.usable - p.g.CellOffset() && p.g.CellOffset() <= p.data.Length == p.g.usable
            && p.kind.Valid() && p.kind.leaf == p.g.leaf
  {
    hide CellSize, Space, Pointers, Get2, Sum;
    PageFacts(p);
    BlankSum(p.cells);
  }

  lemma {:induction false} BlankSum(cells: seq<Block>)
    ensures cells == [] ==> Sum(cells) == 0
  {}

  /** Put cells and a right child on a blank page. */
  method FillPage(p: MemPage, cells: seq<seq<Byte>>, right: seq<Byte>)
    requires Blank(p) && Whole(p.kind, cells) && Weight(cells) <= Room(p)
    requires |right| == if p.g.leaf then 0 else 4
    modifies p, p.data
    ensures Holds(p, Node(cells, right)) && p.overflow == []
    ensures p.data[..p.g.hdr] == old(p.data[..p.g.hdr]) && p.data[p.g.hdr] == old(p.data[p.g.hdr])
  {
    hide CellSize, Intact, Weight, TotalSize, Sum;
    BlankFacts(p);
    ghost var front := p.data[..p.g.hdr + 1];
    WeightTotal(cells);
    p.AssemblePage(cells);
    PageFacts(p);
    NothingInserted(p.Contents(), p.overflow);
    if !p.g.leaf {
      p.PutRight(right);
    } else {
      NoRight(p, right);
    }
    assert p.data[..p.g.hdr + 1] == front;
    assert p.data[..p.g.hdr] == front[..p.g.hdr] && p.data[p.g.hdr] == front[p.g.hdr];
  }

  lemma {:induction false} NoRight(p: MemPage, right: seq<Byte>)
    requires p.Valid() && p.g.leaf && |right| == 0 && p.g.CellOffset() <= p.data.Length
    ensures p.Right() == right
  {}

  /** Insert a divider whose child is page `pgno`. */
  method InsertDivider(parent: MemPage, at: nat, cell: seq<Byte>, temp: Option<seq<Byte>>, pgno: nat)
    requires parent.Valid() && !parent.g.leaf && at <= |parent.Logical()| && |parent.overflow| < MAX_OVERFLOW
             && pgno < TWO32
    requires parent.g.CellOffset() <= parent.data.Length
    requires |cell| >= 4 && CellSize(parent.kind, cell) == |cell| && (temp.Some? ==> |temp.value| >= |cell|)
    modifies parent, parent.data
    ensures parent.Valid() && parent.Logical() == InsertAt(old(parent.Logical()), at, Four(pgno) + cell[4..])
    ensures parent.g.CellOffset() <= parent.data.Length && parent.Header() == old(parent.Header())
    ensures |parent.overflow| <= |old(parent.overflow)| + 1
  {
    hide CellSize, Intact, Sum, Four, InsertAt, RemoveAt, Inserted, MemPage.Logical, MemPage.Valid, RightOf;
    PageFacts(parent);
    LogicalCount(parent);
    ghost var was := parent.Logical();
    parent.InsertCell(at, cell, temp, 4);
    PageFacts(parent);
    ghost var now := parent.Logical();
    parent.PutChild(at, Four(pgno));
    PageFacts(parent);
    InsertedChild(was, now, at, cell, Four(pgno));
  }

  lemma {:induction false} InsertedChild(was: seq<seq<Byte>>, now: seq<seq<Byte>>, at: nat, cell: seq<Byte>,
                                         ptr: seq<Byte>)
    requires at <= |was| && |now| == |was| + 1 && RemoveAt(now, at) == was && |now[at]| == |cell| >= 4
             && now[at][4..] == cell[4..]
    ensures now[at := ptr + now[at][4..]] == InsertAt(was, at, ptr + cell[4..])
  {
    var x := ptr + cell[4..];
    forall j | 0 <= j < |now| ensures now[at := x][j] == InsertAt(was, at, x)[j] {
      if j != at {
        assert RemoveAt(now, at)[if j < at then j else j - 1] == now[j];
      }
    }
  }

  // ------------------------------------------------------------ the new pages and dividers

  /** What the parent must know of a new page: its number, and the key after it. */
  ghost function Dividers(pgnos: seq<nat>, keys: seq<seq<Byte>>): (r: seq<seq<Byte>>)
    requires |keys| <= |pgnos| && forall i :: 0 <= i < |pgnos| ==> pgnos[i] < TWO32
    ensures |r| == |keys| && forall i :: 0 <= i < |r| ==> r[i] == Four(pgnos[i]) + keys[i]
  {
    seq(|keys|, i requires 0 <= i < |keys| => Four(pgnos[i]) + keys[i])
  }

  /** The key of a divider made from the last cell of a leaf that keeps all data. */
  ghost predicate KeyOfLast(kind: CellKind, n: Node, key: seq<Byte>) {
    kind.Valid() && n.cells != [] && ParseCell(kind, n.cells[|n.cells| - 1]).nKey < TWO64
    && key == PutVarint(ParseCell(kind, n.cells[|n.cells| - 1]).nKey)
  }

  /** Cells of a leaf that would be whole as dividers, too. */
  ghost predicate Unrounded(kind: CellKind, cells: seq<seq<Byte>>)
    requires kind.Valid()
  {
    forall i :: 0 <= i < |cells| ==> NaturalSize(kind, cells[i]) == |cells[i]|
  }

  ghost predicate Level(kind: CellKind, leafData: bool, usable: nat, apCell: seq<seq<Byte>>, cuts: seq<nat>) {
    && Whole(kind, apCell) && Legal(Sizes(apCell), usable, leafData, cuts) && (|cuts| > 1 ==> NonEmpty(cuts, leafData))
    && (kind.leaf && !leafData ==> Unrounded(kind, apCell))
  }

  /** The cell that separates page `i` from the next, as a divider, and its key. */
  method DividerAt(kind: CellKind, leafData: bool, apCell: seq<seq<Byte>>, start: nat, cut: nat, parentKind: CellKind)
    returns (cell: seq<Byte>, ghost key: seq<Byte>)
    requires Whole(kind, apCell) && parentKind.Valid() && start < cut < |apCell|
    requires parentKind == (if leafData then kind.(leaf := false, hasData := false) else kind.(leaf := false))
    requires leafData ==> kind.leaf && kind.intKey
    requires kind.leaf && !leafData ==> Unrounded(kind, apCell)
    ensures |cell| >= 4 && CellSize(parentKind, cell) == |cell| && key == cell[4..]
    ensures !leafData ==> (if kind.leaf then key == apCell[cut] else |apCell[cut]| >= 4 && cell == apCell[cut])
    ensures leafData ==> KeyOfLast(kind, Node(apCell[start..cut], []), key)
  {
    hide CellSize, ParseCell, PutVarint;
    if leafData {
      var last := apCell[cut - 1];
      var nKey := ParseCell(kind, last).nKey;
      KeyBound(kind, last);
      cell := KeyCell(nKey);
      KeyCellWhole(parentKind, nKey);
      assert apCell[start..cut][cut - start - 1] == last;
      assert cell[4..] == PutVarint(nKey);
    } else if kind.leaf {
      cell := [0, 0, 0, 0] + apCell[cut];
      LeafAsDivider(kind, [0, 0, 0, 0], apCell[cut]);
    } else {
      cell := apCell[cut];
    }
    key := cell[4..];
  }

  lemma {:induction false} KeyBound(kind: CellKind, c: seq<Byte>)
    requires kind.Valid()
    ensures ParseCell(kind, c).nKey < TWO64
  {
    hide GetVarintFrom, GetVarint32From, LocalSize;
    var n0 := kind.ChildPtrSize() + (if kind.hasData then GetVarint32(c, kind.ChildPtrSize()).0 else 0);
    VarintBelow(c, n0);
  }

  lemma {:induction false} VarintBelow(c: seq<Byte>, at: nat)
    ensures GetVarint(c, at).1 < TWO64
  {}

  /** Page `i` of a division, and the key after it unless it is the last. */
  ghost predicate PieceOk(kind: CellKind, leafData: bool, apCell: seq<seq<Byte>>, cuts: seq<nat>, right: seq<Byte>,
                          node: Node, key: seq<Byte>, i: nat)
    requires i < |cuts|
  {
    var j := Start(cuts, leafData, i);
    && j <= cuts[i] <= |apCell|
    && node.cells == apCell[j..cuts[i]]
    && |node.right| == (if kind.leaf then 0 else 4) && (i == |cuts| - 1 ==> node.right == right)
    && (i < |cuts| - 1 && !leafData ==> cuts[i] < |apCell| && node.right + key == apCell[cuts[i]])
    && (i < |cuts| - 1 && leafData ==> KeyOfLast(kind, node, key))
  }

  /** One new page, and the divider after it unless it is the last. */
  method SpreadOne(parent: MemPage, nxDiv: nat, p: MemPage, pgno: nat, apCell: seq<seq<Byte>>, cuts: seq<nat>,
                   leafData: bool, right: seq<Byte>, i: nat, j: nat, ghost flags: Byte)
    returns (ghost node: Node, ghost key: seq<Byte>)
    requires parent.Valid() && Kin(parent, [p], leafData) && Besides(parent, [p]) && Blank(p) && pgno < TWO32
             && Flagged(p, flags)
    requires i < |cuts| && Level(p.kind, leafData, Room(p), apCell, cuts) && j == Start(cuts, leafData, i)
    requires |right| == if p.kind.leaf then 0 else 4
    requires nxDiv + i <= |parent.Logical()| && |parent.overflow| < MAX_OVERFLOW
             && parent.g.CellOffset() <= parent.data.Length
    modifies parent, parent.data, p, p.data
    ensures i == |cuts| - 1 ==> key == []
    ensures Flagged(p, flags) && Holds(p, node) && p.overflow == []
    ensures PieceOk(p.kind, leafData, apCell, cuts, right, node, key, i)
    ensures parent.Valid() && parent.g.CellOffset() <= parent.data.Length && parent.Header() == old(parent.Header())
    ensures parent.Logical() == if i < |cuts| - 1 then InsertAt(old(parent.Logical()), nxDiv + i, Four(pgno) + key)
                                else old(parent.Logical())
    ensures |parent.overflow| <= |old(parent.overflow)| + (if i < |cuts| - 1 then 1 else 0)
  {
    hide CellSize, MemPage.Valid, MemPage.Logical, Four, InsertAt, Holds, Blank, MemPage.Right, MemPage.Header, Level,
         Weight;
    assert [p][0] == p;
    BlankFacts(p);
    PieceFacts(p.kind, leafData, Room(p), apCell, cuts, i);
    var cut := cuts[i];
    var cells := apCell[j..cut];
    if i == |cuts| - 1 {
      FillPage(p, cells, right);
      node, key := Node(cells, right), [];
    } else {
      PageFacts(parent);
      var cell;
      cell, key := DividerAt(p.kind, leafData, apCell, j, cut, parent.kind);
      var child := if p.g.leaf then [] else cell[..4];
      FillPage(p, cells, child);
      node := Node(cells, child);
      // A divider that leaves a leaf is copied to the scratch area, whatever that held.
      assert |seq(|cell|, k => 0 as Byte)| == |cell|;
      var scratch: seq<Byte> :| |scratch| == |cell|;
      var temp := if p.g.leaf && !leafData then Some(scratch) else None;
      InsertDivider(parent, nxDiv + i, cell, temp, pgno);
    }
  }

  lemma {:induction false} PieceFacts(kind: CellKind, leafData: bool, usable: nat, apCell: seq<seq<Byte>>,
                                      cuts: seq<nat>, i: nat)
    requires Level(kind, leafData, usable, apCell, cuts) && i < |cuts|
    ensures var j := Start(cuts, leafData, i);
            && j <= cuts[i] <= |apCell| && Weight(apCell[j..cuts[i]]) <= usable && Whole(kind, apCell[j..cuts[i]])
            && (i < |cuts| - 1 ==> j < cuts[i] < |apCell|)
    ensures Whole(kind, apCell) && (kind.leaf && !leafData ==> Unrounded(kind, apCell))
  {
    hide CellSize, Load, Start, Weight, Sizes;
    var j := Start(cuts, leafData, i);
    assert PageOk(|apCell|, cuts, leafData, i) && PageFits(Sizes(apCell), usable, leafData, cuts, i);
    LoadSlice(apCell, j, cuts[i]);
    if i < |cuts| - 1 {
      assert PageFilled(cuts, leafData, i) && PageFilled(cuts, leafData, i + 1)
             && PageOk(|apCell|, cuts, leafData, i + 1);
      StartAfter(cuts, leafData, i + 1);
    }
  }

  /** Write the new pages, and their dividers into the parent. */
  method Spread(parent: MemPage, nxDiv: nat, apNew: seq<MemPage>, pgnoNew: seq<nat>, apCell: seq<seq<Byte>>,
                cuts: seq<nat>, leafData: bool, right: seq<Byte>, ghost flags: Byte)
    returns (ghost nodes: seq<Node>, ghost keys: seq<seq<Byte>>)
    requires parent.Valid() && parent.overflow == [] && nxDiv <= |parent.Logical()|
             && parent.g.CellOffset() <= parent.data.Length
    requires Kin(parent, apNew, leafData) && Besides(parent, apNew) && Separate(apNew)
    requires 0 < |apNew| == |pgnoNew| == |cuts| <= MAX_OVERFLOW
    requires forall i :: 0 <= i < |apNew| ==> Blank(apNew[i]) && Flagged(apNew[i], flags) && pgnoNew[i] < TWO32
    requires Level(apNew[0].kind, leafData, Room(apNew[0]), apCell, cuts)
    requires |right| == if apNew[0].kind.leaf then 0 else 4
    modifies parent, parent.data
    modifies set i | 0 <= i < |apNew| :: apNew[i]
    modifies set i | 0 <= i < |apNew| :: apNew[i].data
    ensures |nodes| == |apNew| == |keys| + 1
    ensures forall i :: 0 <= i < |apNew| ==> Holds(apNew[i], nodes[i]) && apNew[i].overflow == []
                                             && Flagged(apNew[i], flags)
    ensures Divided(apNew[0].kind.leaf, leafData, apCell, cuts, right, nodes, keys)
    ensures leafData ==> forall i :: 0 <= i < |keys| ==> KeyOfLast(apNew[0].kind, nodes[i], keys[i])
    ensures parent.Valid() && parent.g.CellOffset() <= parent.data.Length && parent.Header() == old(parent.Header())
    ensures parent.Logical() == old(parent.Logical())[..nxDiv] + Dividers(pgnoNew, keys)
            + old(parent.Logical())[nxDiv..]
  {
    hide CellSize, MemPage.Valid, MemPage.Logical, Four, InsertAt, Holds, Blank, Flagged, MemPage.Right, MemPage.Header,
         Level, Weight, PieceOk, Dividers, Divided, Kin, SameKind, Start, Separate, Besides, Spreading;
    ghost var was, kind := parent.Logical(), apNew[0].kind;
    ghost var out := parent.Header();
    nodes, keys := [], [];
    var i, j, k := 0, 0, |apNew|;
    NoDividers(was, nxDiv, pgnoNew);
    StartFirst(cuts, leafData);
    StartSpreading(parent, was, out, nxDiv, apNew, pgnoNew, apCell, cuts, leafData, right, flags);
    while i < k
      invariant 0 <= i <= k && (i < k ==> j == Start(cuts, leafData, i)) && |nodes| == i
                && |keys| == (if i < k then i else k - 1)
      invariant Spreading(parent, was, out, nxDiv, apNew, pgnoNew, apCell, cuts, leafData, right, flags, nodes, keys)
    {
      nodes, keys := SpreadStep(parent, was, out, nxDiv, apNew, pgnoNew, apCell, cuts, leafData, right, flags, nodes,
                                keys, i, j);
      j := cuts[i] + (if leafData then 0 else 1);
      i := i + 1;
      StartAfter(cuts, leafData, i);
    }
    SpreadDone(parent, was, out, nxDiv, apNew, pgnoNew, apCell, cuts, leafData, right, flags, nodes, keys);
  }

  /** The pages written so far, and what the parent knows of them. */
  ghost predicate Spreading(parent: MemPage, was: seq<seq<Byte>>, out: (seq<Byte>, seq<Byte>), nxDiv: nat,
                            apNew: seq<MemPage>, pgnoNew: seq<nat>, apCell: seq<seq<Byte>>, cuts: seq<nat>,
                            leafData: bool, right: seq<Byte>, flags: Byte, nodes: seq<Node>, keys: seq<seq<Byte>>)
    requires nxDiv <= |was| && |nodes| <= |apNew| == |cuts| == |pgnoNew| && |keys| <= |pgnoNew| && apNew != []
    requires forall i :: 0 <= i < |pgnoNew| ==> pgnoNew[i] < TWO32
    reads parent, parent.data
    reads set i | 0 <= i < |apNew| :: apNew[i]
    reads set i | 0 <= i < |apNew| :: apNew[i].data
  {
    && parent.Valid() && parent.g.CellOffset() <= parent.data.Length && parent.Header() == out
       && |parent.overflow| <= |keys|
    && parent.Logical() == was[..nxDiv] + Dividers(pgnoNew, keys) + was[nxDiv..]
    && (forall x :: |nodes| <= x < |apNew| ==> Blank(apNew[x]))
    && (forall x :: 0 <= x < |apNew| ==> Flagged(apNew[x], flags))
    && (forall x :: 0 <= x < |nodes| ==> Holds(apNew[x], nodes[x]) && apNew[x].overflow == [])
    && (forall x :: 0 <= x < |nodes| ==>
          PieceOk(apNew[0].kind, leafData, apCell, cuts, right, nodes[x], if x < |keys| then keys[x] else [], x))
  }

  lemma {:induction false} StartSpreading(parent: MemPage, was: seq<seq<Byte>>, out: (seq<Byte>, seq<Byte>), nxDiv: nat,
                                          apNew: seq<MemPage>, pgnoNew: seq<nat>, apCell: seq<seq<Byte>>,
                                          cuts: seq<nat>, leafData: bool, right: seq<Byte>, flags: Byte)
    requires nxDiv <= |was| && 0 < |apNew| == |cuts| == |pgnoNew|
             && forall i :: 0 <= i < |pgnoNew| ==> pgnoNew[i] < TWO32
    requires parent.Valid() && parent.g.CellOffset() <= parent.data.Length && parent.Header() == out
             && parent.overflow == []
    requires parent.Logical() == was && forall x :: 0 <= x < |apNew| ==> Blank(apNew[x]) && Flagged(apNew[x], flags)
    ensures Spreading(parent, was, out, nxDiv, apNew, pgnoNew, apCell, cuts, leafData, right, flags, [], [])
  {
    hide MemPage.Valid, MemPage.Logical, Blank, Flagged, MemPage.Right, MemPage.Header, Holds, Dividers;
    NoDividers(was, nxDiv, pgnoNew);
  }

  lemma {:induction false} SpreadDone(parent: MemPage, was: seq<seq<Byte>>, out: (seq<Byte>, seq<Byte>), nxDiv: nat,
                                      apNew: seq<MemPage>, pgnoNew: seq<nat>, apCell: seq<seq<Byte>>, cuts: seq<nat>,
                                      leafData: bool, right: seq<Byte>, flags: Byte, nodes: seq<Node>,
                                      keys: seq<seq<Byte>>)
    requires nxDiv <= |was| && |nodes| == |apNew| == |cuts| == |pgnoNew| == |keys| + 1
    requires forall i :: 0 <= i < |pgnoNew| ==> pgnoNew[i] < TWO32
    requires Spreading(parent, was, out, nxDiv, apNew, pgnoNew, apCell, cuts, leafData, right, flags, nodes, keys)
             && Kin(parent, apNew, leafData)
    requires Level(apNew[0].kind, leafData, Room(apNew[0]), apCell, cuts)
             && |right| == if apNew[0].kind.leaf then 0 else 4
    ensures Divided(apNew[0].kind.leaf, leafData, apCell, cuts, right, nodes, keys)
    ensures leafData ==> forall i :: 0 <= i < |keys| ==> KeyOfLast(apNew[0].kind, nodes[i], keys[i])
    ensures forall i :: 0 <= i < |apNew| ==> Holds(apNew[i], nodes[i]) && apNew[i].overflow == []
                                             && Flagged(apNew[i], flags)
    ensures parent.Valid() && parent.g.CellOffset() <= parent.data.Length && parent.Header() == out
    ensures parent.Logical() == was[..nxDiv] + Dividers(pgnoNew, keys) + was[nxDiv..]
  {
    hide MemPage.Valid, MemPage.Logical, Blank, Flagged, MemPage.Right, MemPage.Header, Holds, Dividers, PieceOk,
         Divided, Level, KeyOfLast;
    KinOne(parent, apNew, leafData, 0);
    PiecesDivided(apNew[0].kind, leafData, Room(apNew[0]), apCell, cuts, right, nodes, keys);
  }

  method SpreadStep(parent: MemPage, ghost was: seq<seq<Byte>>, ghost out: (seq<Byte>, seq<Byte>), nxDiv: nat,
                    apNew: seq<MemPage>, pgnoNew: seq<nat>, apCell: seq<seq<Byte>>, cuts: seq<nat>, leafData: bool,
                    right: seq<Byte>, ghost flags: Byte, ghost nodes: seq<Node>, ghost keys: seq<seq<Byte>>, i: nat,
                    j: nat)
    returns (ghost nodes': seq<Node>, ghost keys': seq<seq<Byte>>)
    requires nxDiv <= |was| && |nodes| == i < |apNew| == |cuts| == |pgnoNew| <= MAX_OVERFLOW && |keys| == i
             && j == Start(cuts, leafData, i)
    requires forall i :: 0 <= i < |pgnoNew| ==> pgnoNew[i] < TWO32
    requires Spreading(parent, was, out, nxDiv, apNew, pgnoNew, apCell, cuts, leafData, right, flags, nodes, keys)
    requires Kin(parent, apNew, leafData) && Besides(parent, apNew) && Separate(apNew)
    requires Level(apNew[0].kind, leafData, Room(apNew[0]), apCell, cuts)
             && |right| == if apNew[0].kind.leaf then 0 else 4
    modifies parent, parent.data, apNew[i], apNew[i].data
    ensures |nodes'| == i + 1 && |keys'| == if i + 1 < |apNew| then i + 1 else i
    ensures Spreading(parent, was, out, nxDiv, apNew, pgnoNew, apCell, cuts, leafData, right, flags, nodes', keys')
    ensures cuts[i] <= |apCell|
  {
    hide CellSize, MemPage.Valid, MemPage.Logical, Four, InsertAt, Holds, Blank, Flagged, MemPage.Right, MemPage.Header,
         Level, Weight, PieceOk, Dividers, Kin, SameKind, Start;
    ghost var kind := apNew[0].kind;
    ghost var node, key;
    KinOne(parent, apNew, leafData, i);
    DividersCount(was, nxDiv, pgnoNew, keys);
    node, key := SpreadOne(parent, nxDiv, apNew[i], pgnoNew[i], apCell, cuts, leafData, right, i, j, flags);
    PieceCut(kind, leafData, apCell, cuts, right, node, key, i);
    nodes', keys' := nodes + [node], keys;
    if i < |apNew| - 1 {
      DividersMore(was, nxDiv, pgnoNew, keys, key);
      keys' := keys + [key];
    }
  }

  lemma {:induction false} PieceCut(kind: CellKind, leafData: bool, apCell: seq<seq<Byte>>, cuts: seq<nat>,
                                    right: seq<Byte>, node: Node, key: seq<Byte>, i: nat)
    requires i < |cuts| && PieceOk(kind, leafData, apCell, cuts, right, node, key, i)
    ensures cuts[i] <= |apCell|
  {}

  lemma {:induction false} StartFirst(cuts: seq<nat>, leafData: bool)
    ensures Start(cuts, leafData, 0) == 0
  {}

  lemma {:induction false} KinOne(parent: MemPage, pages: seq<MemPage>, leafData: bool, i: nat)
    requires Kin(parent, pages, leafData) && i < |pages|
    ensures Kin(parent, [pages[i]], leafData) && pages[i].kind == pages[0].kind && pages[i].g == pages[0].g
    ensures leafData ==> pages[0].kind.leaf
  {}

  lemma {:induction false} NoDividers(was: seq<seq<Byte>>, n: nat, pgnos: seq<nat>)
    requires n <= |was| && forall i :: 0 <= i < |pgnos| ==> pgnos[i] < TWO32
    ensures was == was[..n] + Dividers(pgnos, []) + was[n..]
  {}

  lemma {:induction false} DividersCount(was: seq<seq<Byte>>, n: nat, pgnos: seq<nat>, keys: seq<seq<Byte>>)
    requires n <= |was| && |keys| <= |pgnos| && forall i :: 0 <= i < |pgnos| ==> pgnos[i] < TWO32
    ensures |was[..n] + Dividers(pgnos, keys) + was[n..]| == |was| + |keys|
  {}

  lemma {:induction false} DividersMore(was: seq<seq<Byte>>, n: nat, pgnos: seq<nat>, keys: seq<seq<Byte>>,
                                        key: seq<Byte>)
    requires n <= |was| && |keys| < |pgnos| && forall i :: 0 <= i < |pgnos| ==> pgnos[i] < TWO32
    ensures var all := was[..n] + Dividers(pgnos, keys) + was[n..];
            && n + |keys| <= |all|
            && InsertAt(all, n + |keys|, Four(pgnos[|keys|]) + key)
               == was[..n] + Dividers(pgnos, keys + [key]) + was[n..]
  {
    hide Four;
    var ds, d := Dividers(pgnos, keys), Four(pgnos[|keys|]) + key;
    var all := was[..n] + ds + was[n..];
    assert all[..n + |keys|] == was[..n] + ds && all[n + |keys|..] == was[n..];
    assert Dividers(pgnos, keys + [key]) == ds + [d];
  }

  lemma {:induction false} PiecesDivided(kind: CellKind, leafData: bool, usable: nat, apCell: seq<seq<Byte>>,
                                         cuts: seq<nat>, right: seq<Byte>, nodes: seq<Node>, keys: seq<seq<Byte>>)
    requires Level(kind, leafData, usable, apCell, cuts) && |nodes| == |cuts| == |keys| + 1 && (leafData ==> kind.leaf)
    requires |right| == if kind.leaf then 0 else 4
    requires forall x :: 0 <= x < |nodes|
                         ==> PieceOk(kind, leafData, apCell, cuts, right, nodes[x], if x < |keys| then keys[x] else [],
                                     x)
    ensures Divided(kind.leaf, leafData, apCell, cuts, right, nodes, keys)
    ensures leafData ==> forall i :: 0 <= i < |keys| ==> KeyOfLast(kind, nodes[i], keys[i])
  {
    hide Start, Load, Sizes, KeyOfLast;
    WholeShaped(kind, apCell);
    forall i | 0 <= i < |cuts|
      ensures PageDivided(kind.leaf, leafData, apCell, cuts, right, nodes, keys, i)
      ensures leafData && i < |keys| ==> KeyOfLast(kind, nodes[i], keys[i])
    {
      assert PieceOk(kind, leafData, apCell, cuts, right, nodes[i], if i < |keys| then keys[i] else [], i);
    }
  }

  lemma {:induction false} WholeShaped(kind: CellKind, cells: seq<seq<Byte>>)
    requires Whole(kind, cells)
    ensures Shaped(kind.leaf, cells)
  {
    forall i | 0 <= i < |cells| ensures |cells[i]| >= 4 {
      assert CellSize(kind, cells[i]) == |cells[i]|;
    }
  }
}
