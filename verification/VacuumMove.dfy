/** Pages that point to each other, the pointer map that inverts the pointers, and moving a page. */
module VacuumMove {

  type Pgno = nat

  /** A cell: its left child (0 on leaves), its first overflow page (0 if none), and the rest. */
  datatype Cell = Cell(child: Pgno, ovfl: Pgno, payload: seq<nat>)

  datatype Content =
    | Tree(leaf: bool, cells: seq<Cell>, right: Pgno)
    | Chain(next: Pgno, bytes: seq<nat>)

  datatype Kind = RootPage | FreePage | Overflow1 | Overflow2 | Btree

  datatype Entry = Entry(kind: Kind, parent: Pgno)

  datatype Link = Link(kind: Kind, to: Pgno)

  // ------------------------------------------------------------ pointers

  ghost function CellLinks(leaf: bool, c: Cell): seq<Link> {
    (if c.ovfl != 0 then [Link(Overflow1, c.ovfl)] else []) + (if leaf then [] else [Link(Btree, c.child)])
  }

  ghost function CellsLinks(leaf: bool, cells: seq<Cell>): seq<Link> {
    if cells == [] then [] else CellsLinks(leaf, cells[..|cells| - 1]) + CellLinks(leaf, cells[|cells| - 1])
  }

  /** The pointers on a page, in the order in which they are gone through. */
  ghost function Links(c: Content): seq<Link> {
    match c
    case Tree(leaf, cells, right) => CellsLinks(leaf, cells) + (if leaf then [] else [Link(Btree, right)])
    case Chain(next, _) => if next != 0 then [Link(Overflow2, next)] else []
  }

  /** No page is pointed to twice. */
  ghost predicate Once(links: seq<Link>) {
    forall i, j :: 0 <= i < j < |links| ==> links[i].to != links[j].to
  }

  ghost predicate LinkedBy(pages: map<Pgno, Content>, p: Pgno, k: Kind, x: Pgno) {
    p in pages && Link(k, x) in Links(pages[p])
  }

  /** What kind of page an entry describes. */
  ghost predicate Fits(k: Kind, c: Content) {
    match k
    case RootPage => c.Tree?
    case Btree => c.Tree?
    case FreePage => false
    case _ => c.Chain?
  }

  ghost predicate EntryOk(pages: map<Pgno, Content>, ptrmap: map<Pgno, Entry>, roots: set<Pgno>, x: Pgno) {
    && x in ptrmap && x in pages && Fits(ptrmap[x].kind, pages[x])
    && (x in roots <==> ptrmap[x].kind == RootPage)
    && (x !in roots ==> LinkedBy(pages, ptrmap[x].parent, ptrmap[x].kind, x))
  }

  ghost predicate LinkOk(pages: map<Pgno, Content>, ptrmap: map<Pgno, Entry>, p: Pgno, l: Link) {
    l.to in pages && l.to != p && l.to != 1 && l.to in ptrmap && ptrmap[l.to] == Entry(l.kind, p)
  }

  ghost predicate PageOk(pages: map<Pgno, Content>, ptrmap: map<Pgno, Entry>, p: Pgno)
    requires p in pages
  {
    && Once(Links(pages[p]))
    && forall i :: 0 <= i < |Links(pages[p])| ==>
         LinkOk(pages, ptrmap, p, Links(pages[p])[i])
  }

  /** The pointer map is the inverse of the pointers: each of them has its entry, and each page but
      the roots is pointed to just where its entry says. Page 1, a root, has no entry. */
  ghost predicate Inverse(pages: map<Pgno, Content>, ptrmap: map<Pgno, Entry>, roots: set<Pgno>) {
    && 0 !in pages && 1 in roots && roots <= pages.Keys
    && (forall p :: p in pages ==> PageOk(pages, ptrmap, p))
    && (forall x :: x in pages && x != 1 ==> EntryOk(pages, ptrmap, roots, x))
  }

  // ------------------------------------------------------------ renaming

  ghost function To(x: Pgno, f: Pgno, p: Pgno): Pgno { if p == x then f else p }

  ghost function RenameCell(leaf: bool, c: Cell, x: Pgno, f: Pgno): Cell {
    Cell(if leaf then c.child else To(x, f, c.child), To(x, f, c.ovfl), c.payload)
  }

  ghost function RenameCells(leaf: bool, cells: seq<Cell>, x: Pgno, f: Pgno): (r: seq<Cell>)
    ensures |r| == |cells| && forall i :: 0 <= i < |r| ==> r[i] == RenameCell(leaf, cells[i], x, f)
  {
    seq(|cells|, i requires 0 <= i < |cells| => RenameCell(leaf, cells[i], x, f))
  }

  ghost function Rename(c: Content, x: Pgno, f: Pgno): Content {
    match c
    case Tree(leaf, cells, right) => Tree(leaf, RenameCells(leaf, cells, x, f), if leaf then right else To(x, f, right))
    case Chain(next, bytes) => Chain(To(x, f, next), bytes)
  }

  ghost function RenameLinks(ls: seq<Link>, x: Pgno, f: Pgno): (r: seq<Link>)
    ensures |r| == |ls| && forall i :: 0 <= i < |r| ==> r[i] == Link(ls[i].kind, To(x, f, ls[i].to))
  {
    seq(|ls|, i requires 0 <= i < |ls| => Link(ls[i].kind, To(x, f, ls[i].to)))
  }

  /** Page `x` is now page `f`, for itself and wherever it is pointed to. */
  ghost function RenameAll(pages: map<Pgno, Content>, x: Pgno, f: Pgno): map<Pgno, Content>
    requires x in pages
  {
    map q | q in pages.Keys - {x} + {f} :: Rename(pages[if q == f then x else q], x, f)
  }

  // ------------------------------------------------------------ pointers of renamed pages

  lemma {:induction false} RenameCellsLinks(leaf: bool, cells: seq<Cell>, x: Pgno, f: Pgno)
    requires x != 0 && f != 0
    ensures CellsLinks(leaf, RenameCells(leaf, cells, x, f)) == RenameLinks(CellsLinks(leaf, cells), x, f)
  {
    if cells != [] {
      var n := |cells| - 1;
      RenameCellsLinks(leaf, cells[..n], x, f);
      assert RenameCells(leaf, cells, x, f)[..n] == RenameCells(leaf, cells[..n], x, f);
      assert CellLinks(leaf, RenameCell(leaf, cells[n], x, f)) == RenameLinks(CellLinks(leaf, cells[n]), x, f);
      RenameAppend(CellsLinks(leaf, cells[..n]), CellLinks(leaf, cells[n]), x, f);
    }
  }

  lemma {:induction false} RenameAppend(a: seq<Link>, b: seq<Link>, x: Pgno, f: Pgno)
    ensures RenameLinks(a + b, x, f) == RenameLinks(a, x, f) + RenameLinks(b, x, f)
  {}

  lemma {:induction false} RenamedLinks(c: Content, x: Pgno, f: Pgno)
    requires x != 0 && f != 0
    ensures Links(Rename(c, x, f)) == RenameLinks(Links(c), x, f)
  {
    if c.Tree? {
      RenameCellsLinks(c.leaf, c.cells, x, f);
      RenameAppend(CellsLinks(c.leaf, c.cells), if c.leaf then [] else [Link(Btree, c.right)], x, f);
    }
  }

  /** Renaming a page that is not pointed to changes nothing. */
  lemma {:induction false} RenameNothing(c: Content, x: Pgno, f: Pgno)
    requires x != 0 && forall i :: 0 <= i < |Links(c)| ==> Links(c)[i].to != x
    ensures Rename(c, x, f) == c
  {
    if c.Tree? {
      var ls := CellsLinks(c.leaf, c.cells);
      assert forall i :: 0 <= i < |ls| ==> Links(c)[i] == ls[i];
      forall i | 0 <= i < |c.cells| ensures RenameCell(c.leaf, c.cells[i], x, f) == c.cells[i] {
        CellIn(c.leaf, c.cells, i);
      }
      if !c.leaf {
        assert Links(c)[|ls|] == Link(Btree, c.right);
      }
    } else if c.next != 0 {
      assert Links(c)[0] == Link(Overflow2, c.next);
    }
  }

  /** A cell's pointers are among those of all cells. */
  lemma {:induction false} CellIn(leaf: bool, cells: seq<Cell>, i: nat)
    requires i < |cells|
    ensures cells[i].ovfl != 0 ==> Link(Overflow1, cells[i].ovfl) in CellsLinks(leaf, cells)
    ensures !leaf ==> Link(Btree, cells[i].child) in CellsLinks(leaf, cells)
  {
    var n := |cells| - 1;
    if i < n {
      CellIn(leaf, cells[..n], i);
    }
  }

  lemma {:induction false} OnceParts(a: seq<Link>, b: seq<Link>)
    requires Once(a + b)
    ensures Once(a) && Once(b) && forall l, m :: l in a && m in b ==> l.to != m.to
  {
    var all := a + b;
    assert forall i :: 0 <= i < |a| ==> all[i] == a[i];
    assert forall i :: 0 <= i < |b| ==> all[|a| + i] == b[i];
  }

  /** Pointers of different cells differ. */
  lemma {:induction false} OnceCells(leaf: bool, cells: seq<Cell>, i: nat, j: nat)
    requires Once(CellsLinks(leaf, cells)) && i < j < |cells|
    ensures forall l, m :: l in CellLinks(leaf, cells[i]) && m in CellLinks(leaf, cells[j]) ==> l.to != m.to
  {
    var n := |cells| - 1;
    OnceParts(CellsLinks(leaf, cells[..n]), CellLinks(leaf, cells[n]));
    if j < n {
      OnceCells(leaf, cells[..n], i, j);
    } else {
      CellIn(leaf, cells[..n], i);
    }
  }

  lemma {:induction false} OnceCell(leaf: bool, cells: seq<Cell>, i: nat)
    requires Once(CellsLinks(leaf, cells)) && i < |cells|
    ensures Once(CellLinks(leaf, cells[i]))
  {
    var n := |cells| - 1;
    OnceParts(CellsLinks(leaf, cells[..n]), CellLinks(leaf, cells[n]));
    if i < n {
      OnceCell(leaf, cells[..n], i);
    }
  }

  // ------------------------------------------------------------ one pointer changed

  function Repoint(c: Cell, kind: Kind, f: Pgno): Cell {
    if kind == Overflow1 then c.(ovfl := f) else c.(child := f)
  }

  predicate PointsBy(leaf: bool, c: Cell, kind: Kind, x: Pgno) {
    if kind == Overflow1 then c.ovfl == x else !leaf && c.child == x
  }

  /** The one pointer to `x` is in cell `i`. */
  lemma {:induction false} RenameAtCell(c: Content, kind: Kind, i: nat, x: Pgno, f: Pgno)
    requires c.Tree? && Once(Links(c)) && i < |c.cells| && x != 0 && (kind == Overflow1 || kind == Btree)
    requires PointsBy(c.leaf, c.cells[i], kind, x)
    ensures Rename(c, x, f) == c.(cells := c.cells[i := Repoint(c.cells[i], kind, f)])
  {
    hide CellsLinks;
    var ls, tail := CellsLinks(c.leaf, c.cells), if c.leaf then [] else [Link(Btree, c.right)];
    OnceParts(ls, tail);
    CellIn(c.leaf, c.cells, i);
    forall j | 0 <= j < |c.cells|
      ensures RenameCell(c.leaf, c.cells[j], x, f) == if j == i then Repoint(c.cells[i], kind, f) else c.cells[j]
    {
      RenamedCell(c.leaf, c.cells, kind, i, x, f, j);
    }
    assert Link(kind, x) in ls;
    assert !c.leaf ==> tail[0] == Link(Btree, c.right);
  }

  lemma {:induction false} RenamedCell(leaf: bool, cells: seq<Cell>, kind: Kind, i: nat, x: Pgno, f: Pgno, j: nat)
    requires Once(CellsLinks(leaf, cells)) && i < |cells| && j < |cells| && x != 0
             && (kind == Overflow1 || kind == Btree)
    requires PointsBy(leaf, cells[i], kind, x)
    ensures RenameCell(leaf, cells[j], x, f) == if j == i then Repoint(cells[i], kind, f) else cells[j]
  {
    hide CellsLinks;
    CellHas(leaf, cells[i]);
    CellHas(leaf, cells[j]);
    if j != i {
      OnceCells(leaf, cells, if i < j then i else j, if i < j then j else i);
    } else {
      OnceCell(leaf, cells, i);
      BothLinks(leaf, cells[i]);
    }
  }

  lemma {:induction false} BothLinks(leaf: bool, c: Cell)
    requires Once(CellLinks(leaf, c))
    ensures c.ovfl != 0 && !leaf ==> c.ovfl != c.child
  {
    assert c.ovfl != 0 && !leaf ==> CellLinks(leaf, c)[0].to != CellLinks(leaf, c)[1].to;
  }

  lemma {:induction false} CellHas(leaf: bool, c: Cell)
    ensures c.ovfl != 0 ==> Link(Overflow1, c.ovfl) in CellLinks(leaf, c)
    ensures !leaf ==> Link(Btree, c.child) in CellLinks(leaf, c)
  {}

  /** The one pointer to `x` is the right child. */
  lemma {:induction false} RenameAtRight(c: Content, x: Pgno, f: Pgno)
    requires c.Tree? && Once(Links(c)) && !c.leaf && c.right == x && x != 0
    ensures Rename(c, x, f) == c.(right := f)
  {
    var ls, tail := CellsLinks(c.leaf, c.cells), [Link(Btree, c.right)];
    OnceParts(ls, tail);
    assert Link(Btree, x) in tail;
    forall j | 0 <= j < |c.cells| ensures RenameCell(c.leaf, c.cells[j], x, f) == c.cells[j] {
      CellIn(c.leaf, c.cells, j);
    }
  }

  /** A pointer is in some cell, or is the right child. */
  lemma {:induction false} WhereLinked(c: Content, kind: Kind, x: Pgno)
    requires c.Tree? && Link(kind, x) in Links(c)
    ensures (kind == Overflow1 || kind == Btree)
    ensures (exists i :: 0 <= i < |c.cells| && PointsBy(c.leaf, c.cells[i], kind, x))
            || (!c.leaf && kind == Btree && c.right == x)
  {
    if Link(kind, x) in CellsLinks(c.leaf, c.cells) {
      InCells(c.leaf, c.cells, Link(kind, x));
    }
  }

  lemma {:induction false} InCells(leaf: bool, cells: seq<Cell>, l: Link)
    requires l in CellsLinks(leaf, cells)
    ensures (l.kind == Overflow1 || l.kind == Btree)
            && exists i :: 0 <= i < |cells| && PointsBy(leaf, cells[i], l.kind, l.to)
  {
    var n := |cells| - 1;
    if l in CellsLinks(leaf, cells[..n]) {
      InCells(leaf, cells[..n], l);
      var i :| 0 <= i < n && PointsBy(leaf, cells[..n][i], l.kind, l.to);
      assert PointsBy(leaf, cells[i], l.kind, l.to);
    } else {
      assert l in CellLinks(leaf, cells[n]);
      assert PointsBy(leaf, cells[n], l.kind, l.to);
    }
  }

  // ------------------------------------------------------------ entries for the pointers of a page

  ghost function PutAll(m: map<Pgno, Entry>, links: seq<Link>, p: Pgno): map<Pgno, Entry> {
    if links == [] then m
    else
      var l := links[|links| - 1];
      PutAll(m, links[..|links| - 1], p)[l.to := Entry(l.kind, p)]
  }

  lemma {:induction false} PutAllMore(m: map<Pgno, Entry>, a: seq<Link>, b: seq<Link>, p: Pgno)
    ensures PutAll(m, a + b, p) == PutAll(PutAll(m, a, p), b, p)
  {
    if b == [] {
      assert a + b == a;
    } else {
      PutAllMore(m, a, b[..|b| - 1], p);
      assert (a + b)[..|a + b| - 1] == a + b[..|b| - 1];
    }
  }

  /** Pages pointed to get entries; others keep theirs. */
  lemma {:induction false} PutAllAt(m: map<Pgno, Entry>, links: seq<Link>, p: Pgno)
    requires Once(links)
    ensures forall i :: 0 <= i < |links| ==> links[i].to in PutAll(m, links, p)
                                             && PutAll(m, links, p)[links[i].to] == Entry(links[i].kind, p)
    ensures forall x :: (forall i :: 0 <= i < |links| ==> links[i].to != x) ==>
              (x in PutAll(m, links, p) <==> x in m) && (x in m ==> PutAll(m, links, p)[x] == m[x])
  {
    if links != [] {
      var n := |links| - 1;
      PutAllAt(m, links[..n], p);
      assert forall i :: 0 <= i < n ==> links[..n][i] == links[i];
    }
  }

  // ------------------------------------------------------------ pages moved

  class Shared {
    var pages: map<Pgno, Content>
    var ptrmap: map<Pgno, Entry>
    var free: set<Pgno>

    constructor (pages: map<Pgno, Content>, ptrmap: map<Pgno, Entry>, free: set<Pgno>)
      ensures this.pages == pages && this.ptrmap == ptrmap && this.free == free
    {
      this.pages, this.ptrmap, this.free := pages, ptrmap, free;
    }

    /** Take some page off the free list. */
    method AllocatePage() returns (f: Pgno)
      requires free != {}
      modifies this`free
      ensures f in old(free) && free == old(free) - {f}
    {
      f :| f in free;
      free := free - {f};
    }

    /** Write an entry of the pointer map. */
    method PtrmapPut(key: Pgno, kind: Kind, parent: Pgno)
      requires key != 0
      modifies this`ptrmap
      ensures ptrmap == old(ptrmap)[key := Entry(kind, parent)]
    {
      if key !in ptrmap || ptrmap[key] != Entry(kind, parent) {
        ptrmap := ptrmap[key := Entry(kind, parent)];
      }
    }

    /** Entries for all children and first overflow pages of a tree page. */
    method SetChildPtrmaps(pgno: Pgno)
      requires pgno in pages && pages[pgno].Tree?
      requires forall i :: 0 <= i < |Links(pages[pgno])| ==> Links(pages[pgno])[i].to != 0
      modifies this`ptrmap
      ensures ptrmap == PutAll(old(ptrmap), Links(pages[pgno]), pgno)
    {
      hide CellsLinks, PutAll, CellLinks, Links;
      var page, i := pages[pgno], 0;
      NoCells(page.leaf, page.cells, ptrmap, pgno);
      while i < |page.cells|
        invariant 0 <= i <= |page.cells| && ptrmap == PutAll(old(ptrmap), CellsLinks(page.leaf, page.cells[..i]), pgno)
      {
        var c := page.cells[i];
        NotZero(page, i);
        CellsMore(page.leaf, page.cells, i);
        PutAllMore(old(ptrmap), CellsLinks(page.leaf, page.cells[..i]), CellLinks(page.leaf, c), pgno);
        PutCell(ptrmap, page.leaf, c, pgno);
        if c.ovfl != 0 {
          PtrmapPut(c.ovfl, Overflow1, pgno);
        }
        if !page.leaf {
          PtrmapPut(c.child, Btree, pgno);
        }
        i := i + 1;
      }
      assert page.cells[..i] == page.cells;
      AllLinks(page, old(ptrmap), pgno);
      if !page.leaf {
        PtrmapPut(page.right, Btree, pgno);
      }
    }

    /** Make the pointer to `x` on page `p` lead to `f`. */
    method ModifyPagePointer(p: Pgno, x: Pgno, f: Pgno, kind: Kind) returns (ok: bool)
      requires p in pages && Once(Links(pages[p])) && x != 0
               && (kind == Overflow1 || kind == Overflow2 || kind == Btree)
      requires kind == Overflow2 <==> pages[p].Chain?
      requires kind == Btree ==> !pages[p].leaf
      modifies this`pages
      ensures ok <==> Link(kind, x) in Links(old(pages)[p])
      ensures pages == if ok then old(pages)[p := Rename(old(pages)[p], x, f)] else old(pages)
    {
      var c := pages[p];
      if kind == Overflow2 {
        if c.next != x {
          return false;
        }
        assert Links(c)[0] == Link(Overflow2, x);
        pages := pages[p := c.(next := f)];
        return true;
      }
      var i := 0;
      while i < |c.cells|
        invariant 0 <= i <= |c.cells| && pages == old(pages)
        invariant forall j :: 0 <= j < i ==> !PointsBy(c.leaf, c.cells[j], kind, x)
      {
        if PointsBy(c.leaf, c.cells[i], kind, x) {
          RenameAtCell(c, kind, i, x, f);
          CellIn(c.leaf, c.cells, i);
          pages := pages[p := c.(cells := c.cells[i := Repoint(c.cells[i], kind, f)])];
          return true;
        }
        i := i + 1;
      }
      if kind != Btree || c.right != x {
        if Link(kind, x) in Links(c) {
          WhereLinked(c, kind, x);
        }
        return false;
      }
      RenameAtRight(c, x, f);
      pages := pages[p := c.(right := f)];
      assert Links(c)[|Links(c)| - 1] == Link(Btree, x);
      return true;
    }

    /** Move page `x` to the unused place `f`, and let all pointers and entries follow it. */
    method RelocatePage(x: Pgno, kind: Kind, parent: Pgno, f: Pgno, ghost roots: set<Pgno>) returns (ok: bool)
      requires Inverse(pages, ptrmap, roots) && x in pages && x !in roots && ptrmap[x] == Entry(kind, parent)
      requires f !in pages && f != 0
      modifies this`pages, this`ptrmap
      ensures ok && pages == RenameAll(old(pages), x, f) && Inverse(pages, ptrmap, roots)
      ensures forall y :: y in old(ptrmap) && y != f && y !in old(pages) ==> y in ptrmap && ptrmap[y] == old(ptrmap)[y]
    {
      hide Inverse, RenameAll;
      ghost var pages0, map0 := pages, ptrmap;
      MoveFacts(pages, ptrmap, roots, x, f);
      var c := pages[x];
      pages := pages[f := c] - {x};
      if kind == Btree {
        SetChildPtrmaps(f);
      } else if c.next != 0 {
        PtrmapPut(c.next, Overflow2, f);
      }
      ChainPut(c, map0, f);
      ok := ModifyPagePointer(parent, x, f, kind);
      PtrmapPut(f, kind, parent);
      Moved(pages0, map0, roots, x, f, pages, ptrmap);
    }
  }

  lemma {:induction false} NoCells(leaf: bool, cells: seq<Cell>, m: map<Pgno, Entry>, p: Pgno)
    ensures PutAll(m, CellsLinks(leaf, cells[..0]), p) == m
  {
    assert cells[..0] == [];
  }

  lemma {:induction false} CellsMore(leaf: bool, cells: seq<Cell>, i: nat)
    requires i < |cells|
    ensures CellsLinks(leaf, cells[..i + 1]) == CellsLinks(leaf, cells[..i]) + CellLinks(leaf, cells[i])
  {
    assert cells[..i + 1][..i] == cells[..i];
  }

  lemma {:induction false} AllLinks(page: Content, m: map<Pgno, Entry>, p: Pgno)
    requires page.Tree?
    ensures var cells := PutAll(m, CellsLinks(page.leaf, page.cells), p);
            PutAll(m, Links(page), p) == if page.leaf then cells else cells[page.right := Entry(Btree, p)]
    ensures !page.leaf ==> exists i :: 0 <= i < |Links(page)| && Links(page)[i] == Link(Btree, page.right)
  {
    var ls := CellsLinks(page.leaf, page.cells);
    if page.leaf {
      assert ls + [] == ls;
    } else {
      PutAllMore(m, ls, [Link(Btree, page.right)], p);
      PutOne(PutAll(m, ls, p), Link(Btree, page.right), p);
      assert Links(page)[|ls|] == Link(Btree, page.right);
    }
  }

  lemma {:induction false} NotZero(page: Content, i: nat)
    requires page.Tree? && i < |page.cells| && forall i :: 0 <= i < |Links(page)| ==> Links(page)[i].to != 0
    ensures !page.leaf ==> page.cells[i].child != 0 && page.right != 0
  {
    CellIn(page.leaf, page.cells, i);
    if !page.leaf {
      assert Link(Btree, page.cells[i].child) in Links(page);
      assert Link(Btree, page.right) in Links(page);
    }
  }

  lemma {:induction false} PutCell(m: map<Pgno, Entry>, leaf: bool, c: Cell, p: Pgno)
    ensures var m1 := if c.ovfl != 0 then m[c.ovfl := Entry(Overflow1, p)] else m;
            PutAll(m, CellLinks(leaf, c), p) == if leaf then m1 else m1[c.child := Entry(Btree, p)]
  {
    var a, b := if c.ovfl != 0 then [Link(Overflow1, c.ovfl)] else [], if leaf then [] else [Link(Btree, c.child)];
    PutAllMore(m, a, b, p);
    PutOne(m, Link(Overflow1, c.ovfl), p);
    PutOne(PutAll(m, a, p), Link(Btree, c.child), p);
  }

  lemma {:induction false} PutOne(m: map<Pgno, Entry>, l: Link, p: Pgno)
    ensures PutAll(m, [l], p) == m[l.to := Entry(l.kind, p)] && PutAll(m, [], p) == m
  {
    assert [l][..0] == [];
  }

  lemma {:induction false} ChainPut(c: Content, m: map<Pgno, Entry>, f: Pgno)
    ensures c.Chain? ==> PutAll(m, Links(c), f) == if c.next != 0 then m[c.next := Entry(Overflow2, f)] else m
  {
    if c.Chain? && c.next != 0 {
      PutOne(m, Link(Overflow2, c.next), f);
    }
  }

  lemma {:induction false} LinkKinds(c: Content, l: Link)
    requires l in Links(c)
    ensures l.kind == Overflow1 || l.kind == Overflow2 || l.kind == Btree
    ensures (l.kind == Overflow2 <==> c.Chain?) && (l.kind == Btree ==> c.Tree? && !c.leaf)
  {
    if c.Tree? {
      WhereLinked(c, l.kind, l.to);
    }
  }

  /** What is known of a page about to be moved. */
  lemma {:induction false} MoveFacts(pages: map<Pgno, Content>, ptrmap: map<Pgno, Entry>, roots: set<Pgno>, x: Pgno,
                                     f: Pgno)
    requires Inverse(pages, ptrmap, roots) && x in pages && x !in roots && f !in pages && f != 0
    ensures x != 1 && f != 1
    ensures x != 0 && x in ptrmap && var e := ptrmap[x];
            && (e.kind == Overflow1 || e.kind == Overflow2 || e.kind == Btree) && (e.kind == Btree <==> pages[x].Tree?)
            && e.parent in pages && e.parent != x && e.parent != f && Once(Links(pages[e.parent]))
               && Link(e.kind, x) in Links(pages[e.parent])
            && (e.kind == Overflow2 <==> pages[e.parent].Chain?) && (e.kind == Btree ==> !pages[e.parent].leaf)
    ensures Once(Links(pages[x])) && forall i :: 0 <= i < |Links(pages[x])|
                                                 ==> Links(pages[x])[i].to in pages && Links(pages[x])[i].to != 0
  {
    hide Links, Once;
    assert EntryOk(pages, ptrmap, roots, x) && PageOk(pages, ptrmap, x);
    var e := ptrmap[x];
    LinkKinds(pages[e.parent], Link(e.kind, x));
    assert PageOk(pages, ptrmap, e.parent);
    var i :| 0 <= i < |Links(pages[e.parent])| && Links(pages[e.parent])[i] == Link(e.kind, x);
    assert LinkOk(pages, ptrmap, e.parent, Links(pages[e.parent])[i]);
    forall j | 0 <= j < |Links(pages[x])| ensures Links(pages[x])[j].to in pages && Links(pages[x])[j].to != 0 {
      assert LinkOk(pages, ptrmap, x, Links(pages[x])[j]);
    }
  }

  /** A page other than its parent does not point to `x`. */
  lemma {:induction false} NotLinked(pages: map<Pgno, Content>, ptrmap: map<Pgno, Entry>, roots: set<Pgno>, x: Pgno,
                                     q: Pgno)
    requires Inverse(pages, ptrmap, roots) && x in pages && x in ptrmap && q in pages && q != ptrmap[x].parent
    ensures forall i :: 0 <= i < |Links(pages[q])| ==> Links(pages[q])[i].to != x
  {
    hide Links, Once;
    assert PageOk(pages, ptrmap, q);
    forall i | 0 <= i < |Links(pages[q])| ensures Links(pages[q])[i].to != x {
      assert LinkOk(pages, ptrmap, q, Links(pages[q])[i]);
    }
  }

  lemma {:induction false} MovedPages(pages0: map<Pgno, Content>, map0: map<Pgno, Entry>, roots: set<Pgno>, x: Pgno,
                                      f: Pgno, pages: map<Pgno, Content>)
    requires Inverse(pages0, map0, roots) && x in pages0 && x in map0 && x !in roots && f !in pages0 && f != 0
    requires var p, mid := map0[x].parent, pages0[f := pages0[x]] - {x};
             p in mid && pages == mid[p := Rename(mid[p], x, f)]
    ensures pages == RenameAll(pages0, x, f)
  {
    hide Links, Inverse, Rename;
    MoveFacts(pages0, map0, roots, x, f);
    var p, all := map0[x].parent, RenameAll(pages0, x, f);
    assert pages.Keys == all.Keys;
    forall q | q in all ensures pages[q] == all[q] {
      var q0 := if q == f then x else q;
      if q0 != p {
        NotLinked(pages0, map0, roots, x, q0);
        RenameNothing(pages0[q0], x, f);
      }
    }
  }

  /** The pointers of a page, after the move. */
  lemma {:induction false} MovedLinks(pages0: map<Pgno, Content>, map0: map<Pgno, Entry>, roots: set<Pgno>, x: Pgno,
                                      f: Pgno, q: Pgno)
    requires Inverse(pages0, map0, roots) && x in pages0 && x in map0 && x !in roots && f !in pages0 && f != 0
    requires q in RenameAll(pages0, x, f)
    ensures var ptrmap := PutAll(map0, Links(pages0[x]), f)[f := map0[x]]; PageOk(RenameAll(pages0, x, f), ptrmap, q)
  {
    hide Links, Inverse, Rename, PutAll;
    MoveFacts(pages0, map0, roots, x, f);
    var pages, ptrmap, q0 := RenameAll(pages0, x, f), PutAll(map0, Links(pages0[x]), f)[f := map0[x]],
        if q == f then x else q;
    RenamedLinks(pages0[q0], x, f);
    PutAllAt(map0, Links(pages0[x]), f);
    PageFacts(pages0, map0, roots, q0);
    var ls, ms := Links(pages0[q0]), Links(pages[q]);
    assert ms == RenameLinks(ls, x, f);
    forall i | 0 <= i < |ms| ensures LinkOk(pages, ptrmap, q, ms[i]) {
      assert LinkOk(pages0, map0, q0, ls[i]);
      if q0 != x {
        NotLinked(pages0, map0, roots, ls[i].to, x);
      }
    }
    forall i, j | 0 <= i < j < |ms| ensures ms[i].to != ms[j].to {
      assert LinkOk(pages0, map0, q0, ls[i]) && LinkOk(pages0, map0, q0, ls[j]);
      assert ls[i].to != ls[j].to;
    }
  }

  lemma {:induction false} PageFacts(pages: map<Pgno, Content>, ptrmap: map<Pgno, Entry>, roots: set<Pgno>, q: Pgno)
    requires Inverse(pages, ptrmap, roots) && q in pages
    ensures PageOk(pages, ptrmap, q) && (q != 1 ==> EntryOk(pages, ptrmap, roots, q)) && 1 in roots
  {}

  /** The entry of a page, after the move. */
  lemma {:induction false} MovedEntry(pages0: map<Pgno, Content>, map0: map<Pgno, Entry>, roots: set<Pgno>, x: Pgno,
                                      f: Pgno, y: Pgno)
    requires Inverse(pages0, map0, roots) && x in pages0 && x in map0 && x !in roots && f !in pages0 && f != 0
             && f !in roots
    requires y in RenameAll(pages0, x, f) && y != 1
    ensures var ptrmap := PutAll(map0, Links(pages0[x]), f)[f := map0[x]];
            EntryOk(RenameAll(pages0, x, f), ptrmap, roots, y)
  {
    hide Links, Inverse, PutAll;
    MoveFacts(pages0, map0, roots, x, f);
    var pages, ptrmap, y0 := RenameAll(pages0, x, f), PutAll(map0, Links(pages0[x]), f)[f := map0[x]],
        if y == f then x else y;
    PutAllAt(map0, Links(pages0[x]), f);
    PageFacts(pages0, map0, roots, y0);
    PageFacts(pages0, map0, roots, x);
    if y0 !in roots {
      var e := map0[y0];
      var q := if e.parent == x then f else e.parent;
      RenamedLinks(pages0[e.parent], x, f);
      var i :| 0 <= i < |Links(pages0[e.parent])| && Links(pages0[e.parent])[i] == Link(e.kind, y0);
      assert Links(pages[q])[i] == Link(e.kind, y);
    }
    if y0 != x && map0[y0].parent != x {
      NotLinked(pages0, map0, roots, y0, x);
    }
    if y0 in roots {
      RootNotLinked(pages0, map0, roots, y0, x);
    }
  }

  lemma {:induction false} RootNotLinked(pages: map<Pgno, Content>, ptrmap: map<Pgno, Entry>, roots: set<Pgno>, r: Pgno,
                                         q: Pgno)
    requires Inverse(pages, ptrmap, roots) && r in roots && q in pages
    ensures forall i :: 0 <= i < |Links(pages[q])| ==> Links(pages[q])[i].to != r
  {
    hide Links, Once;
    PageFacts(pages, ptrmap, roots, q);
    PageFacts(pages, ptrmap, roots, r);
    forall i | 0 <= i < |Links(pages[q])| ensures Links(pages[q])[i].to != r {
      assert LinkOk(pages, ptrmap, q, Links(pages[q])[i]);
      LinkKinds(pages[q], Links(pages[q])[i]);
    }
  }

  /** Afterwards everything is renamed, and the pointer map the inverse again. */
  lemma {:induction false} Moved(pages0: map<Pgno, Content>, map0: map<Pgno, Entry>, roots: set<Pgno>, x: Pgno, f: Pgno,
                                 pages: map<Pgno, Content>, ptrmap: map<Pgno, Entry>)
    requires Inverse(pages0, map0, roots) && x in pages0 && x in map0 && x !in roots && f !in pages0 && f != 0
    requires var p, mid := map0[x].parent, pages0[f := pages0[x]] - {x};
             p in mid && pages == mid[p := Rename(mid[p], x, f)]
    requires ptrmap == PutAll(map0, Links(pages0[x]), f)[f := map0[x]]
    ensures pages == RenameAll(pages0, x, f) && Inverse(pages, ptrmap, roots)
    ensures forall y :: y in map0 && y != f && y !in pages0 ==> y in ptrmap && ptrmap[y] == map0[y]
  {
    hide Links, PutAll, Rename, PageOk, EntryOk;
    MovedPages(pages0, map0, roots, x, f, pages);
    MoveFacts(pages0, map0, roots, x, f);
    forall q | q in pages ensures PageOk(pages, ptrmap, q) && (q != 1 ==> EntryOk(pages, ptrmap, roots, q)) {
      MovedLinks(pages0, map0, roots, x, f, q);
      if q != 1 {
        MovedEntry(pages0, map0, roots, x, f, q);
      }
    }
    PutAllAt(map0, Links(pages0[x]), f);
  }
}
