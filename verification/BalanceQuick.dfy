/** balance_quick: a new largest entry does not fit on the last leaf, and gets a new leaf of its own. */
module BalanceQuick {
  import opened Basics
  import opened BtreeCell
  import opened BtreeSpace
  import opened BtreeContents
  import opened BtreePointers
  import opened BtreePage
  import opened BtreeDivider
  import opened BalancePacking
  import opened BalanceMeaning
  import opened BalanceBound
  import opened BalanceSiblings
  import opened BalanceNonroot

  /** The case balance_nonroot hands over: one waiting cell, after all others, on the last leaf of a leaf-data tree. */
  ghost predicate Rightmost(page: MemPage, pgno: nat, parent: MemPage)
    reads page, page.data, parent, parent.data
  {
    && page.Valid() && page.g.leaf && |page.overflow| == 1 && page.overflow[0].idx == page.nCell > 0
    && parent.Valid() && !parent.g.leaf && !parent.kind.leaf && parent.overflow == []
       && Shaped(false, parent.Contents())
    && SameKind(parent, page, true) && pgno < TWO32 && parent.Right() == Four(pgno)
  }

  /** The waiting cell alone. */
  lemma {:induction false} LastAlone(page: MemPage)
    requires page.Valid() && |page.overflow| == 1 && page.overflow[0].idx == page.nCell
    ensures page.Logical() == page.Contents() + [page.overflow[0].cell] && Whole(page.kind, [page.overflow[0].cell])
  {
    hide CellSize, Intact, Sum;
    PageFacts(page);
    var over := page.overflow;
    assert over[..0] == [];
    assert Inserted(page.Contents(), over[..0]) == page.Contents();
    Appended(page.Contents(), over[0].cell);
  }

  lemma {:induction false} Appended(s: seq<seq<Byte>>, c: seq<Byte>)
    ensures InsertAt(s, |s|, c) == s + [c]
  {}

  lemma {:induction false} OneWeight(c: seq<Byte>)
    ensures Weight([c]) == |c| + 2
  {
    WeightOne(c);
  }

  /** The waiting cell is gone; the count of free bytes, kept at zero while it waited, is what the page has only if
      the page is full. */
  method Forget(page: MemPage)
    requires page.Valid() && page.overflow != []
    modifies page`overflow
    ensures page.overflow == [] && AllWithin(page.cells, page.data.Length)
    ensures page.Contents() == old(page.Contents())
    ensures page.Valid() <==> page.g.usable == page.Low() + Sum(page.cells)
  {
    hide CellSize, Intact, Sum;
    PageFacts(page);
    page.overflow := [];
  }

  /** A leaf of 512 bytes with one cell of 102, on which a cell of 403 has to wait: once that is gone, 400 bytes are
      free and none are counted. */
  method StaleLeaf() returns (page: MemPage)
    ensures page.overflow == [] && page.nFree == 0 && !page.Valid()
            && page.g.usable - page.Low() - Sum(page.cells) == 400
  {
    hide MemPage.Logical, MemPage.Contents, MemPage.Sound, MemPage.Low, Sum, CellSize;
    var g, kind := Dims(0, true, 512), CellKind(true, true, true, 39, 477, 512);
    var a: seq<Byte>, b: seq<Byte> := [100, 1] + seq(100, _ => 0), [131, 16, 2] + seq(400, _ => 0);
    StaleCells(kind, a, b);
    page := new MemPage(g, kind, 13);
    page.InsertCell(0, a, None, 0);
    ghost var cells := page.cells;
    LogicalCount(page);
    PageFacts(page);
    LowIs(page);
    assert page.nFree == 400 == page.g.usable - page.Low() - Sum(cells);
    page.InsertCell(1, b, None, 0);
    CountZero(page);
    Forget(page);
    LowIs(page);
  }

  lemma {:induction false} LowIs(page: MemPage)
    ensures page.Low() == page.g.CellOffset() + 2 * |page.cells|
  {}

  lemma {:induction false} CountZero(page: MemPage)
    requires page.Valid() && page.overflow != []
    ensures page.nFree == 0
  {}

  lemma {:induction false} StaleCells(kind: CellKind, a: seq<Byte>, b: seq<Byte>)
    requires kind == CellKind(true, true, true, 39, 477, 512)
    requires a == [100, 1] + seq(100, _ => 0) && b == [131, 16, 2] + seq(400, _ => 0)
    ensures CellSize(kind, a) == |a| == 102 && CellSize(kind, b) == |b| == 403
  {
    assert At(a, 0) == 100 && At(a, 1) == 1 && At(b, 0) == 131 && At(b, 1) == 16 && At(b, 2) == 2;
    assert GetVarint32(a, 0) == (1, 100) && GetVarint(a, 1) == (1, 1);
    assert GetVarint32From(b, 0, 1, 3) == (2, 400);
    assert GetVarint32(b, 0) == (2, 400) && GetVarint(b, 2) == (1, 2);
  }

  method Quick(page: MemPage, pgno: nat, parent: MemPage, pNew: MemPage, pgnoNew: nat) returns (ghost key: seq<Byte>)
    requires Rightmost(page, pgno, parent) && pgnoNew < TWO32
    requires pNew.g == page.g && pNew.kind == page.kind && Zeroable(pNew) && |page.overflow[0].cell| + 2 <= Room(pNew)
    requires page != pNew && page != parent && pNew != parent && page.data != pNew.data && page.data != parent.data
             && pNew.data != parent.data
    modifies page`overflow, pNew, pNew.data, parent, parent.data
    ensures Holds(pNew, Node([old(page.overflow[0].cell)], [])) && pNew.overflow == []
    ensures pNew.data[0] == old(page.data[0]) && page.data[..] == old(page.data[..])
    ensures AllWithin(page.cells, page.data.Length) && page.overflow == []
    ensures page.Contents() + [old(page.overflow[0].cell)] == old(page.Logical())
    ensures page.Valid() <==> page.g.usable == page.Low() + Sum(page.cells)
    ensures KeyOfLast(page.kind, Node(page.Contents(), []), key)
    ensures parent.Valid() && parent.g.CellOffset() <= parent.data.Length && |parent.overflow| <= 1
    ensures AllWithin(old(parent.cells), parent.data.Length)
    ensures var before := old(parent.Contents());
            Replaced(before, old(parent.Right()), parent.Logical(), parent.Right(), |before|, 1, [pgno, pgnoNew], [key])
  {
    hide MemPage.Valid, MemPage.Logical, MemPage.Contents, MemPage.Right, CellSize, Holds, Replaced, Four, Weight,
         ParseCell, KeyCell, MemPage.Sound, MemPage.Low, Sum;
    PageFacts(page);
    PageFacts(parent);
    LastAlone(page);
    var pCell := page.overflow[0].cell;
    pNew.ZeroPage(page.data[0]);
    OneWeight(pCell);
    FillPage(pNew, [pCell], []);
    var last := page.FindCell(page.nCell - 1);
    Forget(page);
    key := Divide(parent, page.kind, last, pgno, pgnoNew);
  }

  /** The parent gets a divider with the largest key of the old page, whose child that page is; the new one is now the
      right child. */
  method Divide(parent: MemPage, kind: CellKind, last: seq<Byte>, pgno: nat, pgnoNew: nat)
    returns (ghost key: seq<Byte>)
    requires parent.Valid() && !parent.g.leaf && parent.overflow == [] && AllWithin(parent.cells, parent.data.Length)
    requires parent.g.CellOffset() <= parent.data.Length && Shaped(false, parent.Contents()) && |parent.Right()| == 4
    requires kind.Valid() && kind.intKey && parent.kind == kind.(leaf := false, hasData := false) && pgno < TWO32
             && pgnoNew < TWO32
    modifies parent, parent.data
    ensures ParseCell(kind, last).nKey < TWO64 && key == PutVarint(ParseCell(kind, last).nKey)
    ensures parent.Valid() && parent.g.CellOffset() <= parent.data.Length && |parent.overflow| <= 1
    ensures var before := old(parent.Contents());
            Replaced(before, old(parent.Right()), parent.Logical(), parent.Right(), |before|, 1, [pgno, pgnoNew], [key])
  {
    hide MemPage.Valid, MemPage.Logical, MemPage.Contents, MemPage.Right, CellSize, Replaced, Four, ParseCell,
         PutVarint;
    ghost var before, out := parent.Contents(), parent.Right();
    LogicalIs(parent);
    PageFacts(parent);
    KeyBound(kind, last);
    var nKey := ParseCell(kind, last).nKey;
    var parentCell := KeyCell(nKey);
    KeyCellWhole(parent.kind, nKey);
    assert parentCell[4..] == PutVarint(nKey);
    key := PutVarint(nKey);
    InsertDivider(parent, parent.nCell, parentCell, None, pgno);
    Appended(before, Four(pgno) + key);
    parent.PutRight(Four(pgnoNew));
    assert before + Dividers([pgno, pgnoNew], [key])
           == before[..|before|] + Dividers([pgno, pgnoNew], [key]) + before[|before|..];
    assert Dividers([pgno, pgnoNew], [key]) == [Four(pgno) + key];
    ReplacedBy(before, out, |before|, 1, [pgno, pgnoNew], [key], parent.Logical(), parent.Logical(), parent.Right());
  }
}
