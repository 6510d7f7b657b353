/** The auto-vacuum before a commit: pages beyond the final size are moved to free places below it,
    and the file can be cut. */
module VacuumRun {
  import opened VacuumSize
  import opened VacuumMove

  // ------------------------------------------------------------ many renamings

  ghost function Through(r: map<Pgno, Pgno>, p: Pgno): Pgno { if p in r then r[p] else p }

  ghost function ThroughCell(leaf: bool, c: Cell, r: map<Pgno, Pgno>): Cell {
    Cell(if leaf then c.child else Through(r, c.child), Through(r, c.ovfl), c.payload)
  }

  /** A page with all its pointers renamed. */
  ghost function ThroughAll(c: Content, r: map<Pgno, Pgno>): Content {
    match c
    case Tree(leaf, cells, right) =>
      Tree(leaf, seq(|cells|, i requires 0 <= i < |cells| => ThroughCell(leaf, cells[i], r)),
           if leaf then right else Through(r, right))
    case Chain(next, bytes) => Chain(Through(r, next), bytes)
  }

  /** The same pages under other numbers: `r` says which. */
  ghost predicate Renamed(was: map<Pgno, Content>, pages: map<Pgno, Content>, r: map<Pgno, Pgno>) {
    && r.Keys == was.Keys
    && (forall x, y :: x in r && y in r && r[x] == r[y] ==> x == y)
    && (forall x :: x in was ==> r[x] in pages && pages[r[x]] == ThroughAll(was[x], r))
    && (forall q :: q in pages ==> Named(r, q))
  }

  ghost predicate Named(r: map<Pgno, Pgno>, q: Pgno) {
    exists x :: x in r && r[x] == q
  }

  lemma {:induction false} NothingRenamed(pages: map<Pgno, Content>)
    ensures Renamed(pages, pages, map p | p in pages :: p)
  {
    var r := map p | p in pages :: p;
    forall x | x in pages ensures pages[x] == ThroughAll(pages[x], r) {
      assert forall p: Pgno :: Through(r, p) == p;
      assert pages[x].Tree? ==> forall i :: 0 <= i < |pages[x].cells|
                                            ==> ThroughCell(pages[x].leaf, pages[x].cells[i], r) == pages[x].cells[i];
    }
    forall q | q in pages ensures Named(r, q) {
      assert r[q] == q;
    }
  }

  /** All pointers of a page lead to pages, or nowhere. */
  ghost predicate Inside(c: Content, keys: set<Pgno>) {
    match c
    case Tree(leaf, cells, right) =>
      && (forall i :: 0 <= i < |cells| ==> (leaf || cells[i].child in keys)
                                           && (cells[i].ovfl == 0 || cells[i].ovfl in keys))
      && (leaf || right in keys)
    case Chain(next, _) => next == 0 || next in keys
  }

  lemma {:induction false} InverseInside(pages: map<Pgno, Content>, ptrmap: map<Pgno, Entry>, roots: set<Pgno>, p: Pgno)
    requires Inverse(pages, ptrmap, roots) && p in pages
    ensures Inside(pages[p], pages.Keys)
  {
    hide CellsLinks, Inverse;
    PageFacts(pages, ptrmap, roots, p);
    var c := pages[p];
    forall l | l in Links(c) ensures l.to in pages {
      var i :| 0 <= i < |Links(c)| && Links(c)[i] == l;
      assert LinkOk(pages, ptrmap, p, Links(c)[i]);
    }
    if c.Tree? {
      forall i | 0 <= i < |c.cells|
        ensures (c.leaf || c.cells[i].child in pages) && (c.cells[i].ovfl == 0 || c.cells[i].ovfl in pages)
      {
        CellIn(c.leaf, c.cells, i);
        assert forall l :: l in CellsLinks(c.leaf, c.cells) ==> l in Links(c);
      }
      assert c.leaf || Link(Btree, c.right) in Links(c);
    } else {
      assert c.next == 0 || Link(Overflow2, c.next) in Links(c);
    }
  }

  /** One more page renamed. */
  ghost function Onward(r: map<Pgno, Pgno>, x: Pgno, f: Pgno): map<Pgno, Pgno> {
    map p | p in r :: To(x, f, r[p])
  }

  lemma {:induction false} RenamedOnward(was: map<Pgno, Content>, pages: map<Pgno, Content>, r: map<Pgno, Pgno>,
                                         x: Pgno, f: Pgno)
    requires Renamed(was, pages, r) && x in pages && f !in pages && x != 0 && f != 0 && 0 !in was
    requires forall p :: p in was ==> Inside(was[p], was.Keys)
    ensures Renamed(was, RenameAll(pages, x, f), Onward(r, x, f))
  {
    hide ThroughAll, Rename, Inside, Named;
    var r', pages' := Onward(r, x, f), RenameAll(pages, x, f);
    forall p | p in was ensures r'[p] in pages' && pages'[r'[p]] == ThroughAll(was[p], r') {
      ThroughOnward(was[p], r, x, f, was.Keys);
    }
    forall q | q in pages' ensures Named(r', q) {
      NamedOnward(r, x, f, if q == f then x else q);
    }
    forall a, b | a in r' && b in r' && r'[a] == r'[b] ensures a == b {
      assert r[a] in pages && r[b] in pages;
    }
  }

  lemma {:induction false} NamedOnward(r: map<Pgno, Pgno>, x: Pgno, f: Pgno, q: Pgno)
    requires Named(r, q)
    ensures Named(Onward(r, x, f), To(x, f, q))
  {
    var p :| p in r && r[p] == q;
    assert Onward(r, x, f)[p] == To(x, f, q);
  }

  lemma {:induction false} ThroughOnward(c: Content, r: map<Pgno, Pgno>, x: Pgno, f: Pgno, keys: set<Pgno>)
    requires Inside(c, keys) && keys == r.Keys && 0 !in keys && x != 0
    ensures Rename(ThroughAll(c, r), x, f) == ThroughAll(c, Onward(r, x, f))
  {
    var r' := Onward(r, x, f);
    assert forall p :: p in keys || p == 0 ==> To(x, f, Through(r, p)) == Through(r', p);
    if c.Tree? {
      var d := ThroughAll(c, r);
      forall i | 0 <= i < |c.cells| ensures RenameCell(c.leaf, d.cells[i], x, f)
        == ThroughCell(c.leaf, c.cells[i], r') {}
    }
  }

  // ------------------------------------------------------------ counting

  ghost function DataPages(l: Layout, lo: nat, hi: nat): (r: set<Pgno>)
    requires l.Valid()
    ensures forall p :: p in r <==> lo < p <= hi && l.IsData(p)
    decreases hi
  {
    if hi <= lo then {} else DataPages(l, lo, hi - 1) + (if l.IsData(hi) then {hi} else {})
  }

  lemma {:induction false} DataCount(l: Layout, lo: nat, hi: nat)
    requires l.Valid() && lo <= hi
    ensures |DataPages(l, lo, hi)| == l.DataUpTo(hi) - l.DataUpTo(lo)
    decreases hi - lo
  {
    if lo < hi {
      DataCount(l, lo, hi - 1);
      hide Layout.IsData;
      assert hi !in DataPages(l, lo, hi - 1);
    }
  }

  ghost function Above(s: set<Pgno>, fin: nat): (r: set<Pgno>) { set p | p in s && p > fin }

  ghost function Below(s: set<Pgno>, fin: nat): (r: set<Pgno>) { set p | p in s && p <= fin }

  /** Live and free pages together are the data pages of the file. */
  ghost predicate Covered(l: Layout, pages: set<Pgno>, free: set<Pgno>, size: nat)
    requires l.Valid()
  {
    pages !! free && forall p :: p in pages || p in free <==> 1 <= p <= size && l.IsData(p)
  }

  /** If not too much is cut off, there are free places below the cut for all live pages beyond it. */
  lemma {:induction false} EnoughPlaces(l: Layout, pages: set<Pgno>, free: set<Pgno>, fin: nat, size: nat)
    requires l.Valid() && Covered(l, pages, free, size) && fin <= size && l.DataUpTo(fin) + |free| >= l.DataUpTo(size)
    ensures |Above(pages, fin)| <= |Below(free, fin)|
  {
    DataCount(l, fin, size);
    var up := Above(pages, fin) + Above(free, fin);
    assert up == DataPages(l, fin, size);
    assert |up| == |Above(pages, fin)| + |Above(free, fin)|;
    assert free == Above(free, fin) + Below(free, fin);
  }

  // ------------------------------------------------------------ the run

  /** The file before pages `i` and on are looked at; below the cut every data page is live or free. */
  ghost predicate Running(l: Layout, pages: map<Pgno, Content>, ptrmap: map<Pgno, Entry>, free: set<Pgno>,
                          roots: set<Pgno>, fin: nat, size: nat, i: nat)
    requires l.Valid()
  {
    && Inverse(pages, ptrmap, roots) && pages.Keys !! free
    && (forall p :: p in pages || p in free ==> 1 <= p <= size && l.IsData(p))
    && (forall p :: 1 <= p <= fin && l.IsData(p) ==> p in pages || p in free)
    && (forall p :: p in pages ==> p <= fin || i <= p)
    && (forall p :: i <= p <= size && l.IsData(p) && p !in pages ==> p in ptrmap && ptrmap[p].kind == FreePage)
    && (forall p :: p in free ==> p in ptrmap && ptrmap[p].kind == FreePage)
    && |Above(pages.Keys, fin)| <= |Below(free, fin)|
  }

  /** A file in order, with its free pages marked as such. */
  ghost predicate FileOk(l: Layout, pages: map<Pgno, Content>, ptrmap: map<Pgno, Entry>, free: set<Pgno>,
                         roots: set<Pgno>, size: nat)
    requires l.Valid()
  {
    && Inverse(pages, ptrmap, roots) && Covered(l, pages.Keys, free, size)
    && forall p :: p in free ==> p in ptrmap && ptrmap[p].kind == FreePage
  }

  lemma {:induction false} StartRunning(l: Layout, pages: map<Pgno, Content>, ptrmap: map<Pgno, Entry>, free: set<Pgno>,
                                        roots: set<Pgno>, fin: nat, size: nat)
    requires l.Valid() && FileOk(l, pages, ptrmap, free, roots, size) && fin <= size
             && l.DataUpTo(fin) + |free| >= l.DataUpTo(size)
    ensures Running(l, pages, ptrmap, free, roots, fin, size, fin + 1)
  {
    hide Inverse, Layout.IsData;
    EnoughPlaces(l, pages.Keys, free, fin, size);
  }

  /** A page that is not live is passed over. */
  lemma {:induction false} PassOver(l: Layout, pages: map<Pgno, Content>, ptrmap: map<Pgno, Entry>, free: set<Pgno>,
                                    roots: set<Pgno>, fin: nat, size: nat, i: nat)
    requires l.Valid() && Running(l, pages, ptrmap, free, roots, fin, size, i) && i !in pages
    ensures Running(l, pages, ptrmap, free, roots, fin, size, i + 1)
  {
    hide Inverse, Layout.IsData;
  }

  /** A free place beyond the cut is of no use. */
  lemma {:induction false} DropPlace(l: Layout, pages: map<Pgno, Content>, ptrmap: map<Pgno, Entry>, free: set<Pgno>,
                                     roots: set<Pgno>, fin: nat, size: nat, i: nat, f: Pgno)
    requires l.Valid() && Running(l, pages, ptrmap, free, roots, fin, size, i) && f in free && f > fin
    ensures Running(l, pages, ptrmap, free - {f}, roots, fin, size, i)
  {
    hide Inverse, Layout.IsData;
    assert Below(free - {f}, fin) == Below(free, fin);
  }

  /** With a live page beyond the cut there is a free place below it. */
  lemma {:induction false} PlaceLeft(l: Layout, pages: map<Pgno, Content>, ptrmap: map<Pgno, Entry>, free: set<Pgno>,
                                     roots: set<Pgno>, fin: nat, size: nat, i: nat)
    requires l.Valid() && Running(l, pages, ptrmap, free, roots, fin, size, i) && i in pages && i > fin
    ensures free != {}
  {
    hide Inverse, Layout.IsData;
    assert i in Above(pages.Keys, fin);
    assert Below({}, fin) == {};
  }

  lemma {:induction false} AfterMove(l: Layout, pages0: map<Pgno, Content>, map0: map<Pgno, Entry>, free: set<Pgno>,
                                     roots: set<Pgno>, fin: nat, size: nat, i: nat, f: Pgno, pages: map<Pgno, Content>,
                                     ptrmap: map<Pgno, Entry>)
    requires l.Valid() && Running(l, pages0, map0, free, roots, fin, size, i) && i in pages0 && i > fin && f in free
             && f <= fin
    requires pages == RenameAll(pages0, i, f) && Inverse(pages, ptrmap, roots)
    requires forall y :: y in map0 && y != f && y !in pages0 ==> y in ptrmap && ptrmap[y] == map0[y]
    ensures Running(l, pages, ptrmap, free - {f}, roots, fin, size, i + 1)
  {
    hide Inverse, Layout.IsData, RenameAll;
    RenamedKeys(pages0, i, f);
    MovedSets(pages0.Keys, free, fin, i, f);
    forall p | i + 1 <= p <= size && l.IsData(p) && p !in pages ensures p in ptrmap && ptrmap[p].kind == FreePage {
      assert p !in pages0;
    }
  }

  lemma {:induction false} RenamedKeys(pages: map<Pgno, Content>, x: Pgno, f: Pgno)
    requires x in pages
    ensures RenameAll(pages, x, f).Keys == pages.Keys - {x} + {f}
  {
    hide Rename;
  }

  lemma {:induction false} MovedSets(keys: set<Pgno>, free: set<Pgno>, fin: nat, i: nat, f: Pgno)
    requires i in keys && i > fin && f in free && f <= fin && keys !! free && |Above(keys, fin)| <= |Below(free, fin)|
    ensures |Above(keys - {i} + {f}, fin)| <= |Below(free - {f}, fin)|
  {
    assert Above(keys - {i} + {f}, fin) == Above(keys, fin) - {i};
    assert Below(free - {f}, fin) == Below(free, fin) - {f};
  }

  lemma {:induction false} RunDone(l: Layout, pages: map<Pgno, Content>, ptrmap: map<Pgno, Entry>, free: set<Pgno>,
                                   roots: set<Pgno>, fin: nat, size: nat)
    requires l.Valid() && Running(l, pages, ptrmap, free, roots, fin, size, size + 1)
    ensures FileOk(l, pages, ptrmap, Below(free, fin), roots, fin)
  {
    hide Inverse, Layout.IsData;
  }

  /** Renaming keeps the number of pages. */
  lemma {:induction false} RenamedSize(was: map<Pgno, Content>, pages: map<Pgno, Content>, r: map<Pgno, Pgno>)
    requires Renamed(was, pages, r)
    ensures |pages.Keys| == |was.Keys|
  {
    hide ThroughAll;
    assert r.Values == pages.Keys by {
      forall q | q in pages ensures q in r.Values {
        assert Named(r, q);
      }
    }
    OneToOne(r);
  }

  lemma {:induction false} OneToOne(r: map<Pgno, Pgno>)
    requires forall x, y :: x in r && y in r && r[x] == r[y] ==> x == y
    ensures |r.Values| == |r.Keys|
    decreases |r.Keys|
  {
    if r == map[] {
      assert r.Values == {};
    } else {
      var x :| x in r;
      var less := r - {x};
      assert r.Keys == less.Keys + {x};
      assert r.Values == less.Values + {r[x]};
      OneToOne(less);
    }
  }

  /** The free places left below the cut are as many as the data pages kept beyond what was in use. */
  lemma {:induction false} LeftOver(l: Layout, pages: map<Pgno, Content>, ptrmap: map<Pgno, Entry>, lost: set<Pgno>,
                                    roots: set<Pgno>, fin: nat)
    requires l.Valid() && FileOk(l, pages, ptrmap, lost, roots, fin)
    ensures |pages.Keys| + |lost| == l.DataUpTo(fin)
  {
    hide Inverse, Layout.IsData;
    DataCount(l, 0, fin);
    assert l.DataUpTo(0) == 0;
    assert pages.Keys + lost == DataPages(l, 0, fin);
    assert |pages.Keys + lost| == |pages.Keys| + |lost|;
  }

  /** The first page from the free list that lies within the final size. */
  method FindPlace(db: Shared, l: Layout, ghost roots: set<Pgno>, fin: nat, ghost size: nat, ghost i: nat)
    returns (f: Pgno)
    requires l.Valid() && Running(l, db.pages, db.ptrmap, db.free, roots, fin, size, i) && i in db.pages && i > fin
    modifies db`free
    ensures f <= fin && f !in db.free && f !in db.pages && f != 0
    ensures Running(l, db.pages, db.ptrmap, db.free + {f}, roots, fin, size, i)
  {
    hide Running;
    while true
      invariant Running(l, db.pages, db.ptrmap, db.free, roots, fin, size, i)
      decreases db.free
    {
      PlaceLeft(l, db.pages, db.ptrmap, db.free, roots, fin, size, i);
      ghost var was := db.free;
      f := db.AllocatePage();
      if f <= fin {
        PlaceFacts(l, db.pages, db.ptrmap, was, roots, fin, size, i, f);
        assert db.free + {f} == was;
        return;
      }
      DropPlace(l, db.pages, db.ptrmap, was, roots, fin, size, i, f);
    }
  }

  lemma {:induction false} PlaceFacts(l: Layout, pages: map<Pgno, Content>, ptrmap: map<Pgno, Entry>, free: set<Pgno>,
                                      roots: set<Pgno>, fin: nat, size: nat, i: nat, f: Pgno)
    requires l.Valid() && Running(l, pages, ptrmap, free, roots, fin, size, i) && f in free
    ensures f !in pages && f != 0 && Inverse(pages, ptrmap, roots)
  {
    hide Inverse, Layout.IsData;
  }

  /** What the entry of a page in the way says. */
  lemma {:induction false} EntryFacts(l: Layout, pages: map<Pgno, Content>, ptrmap: map<Pgno, Entry>, free: set<Pgno>,
                                      roots: set<Pgno>, fin: nat, size: nat, i: nat)
    requires l.Valid() && Running(l, pages, ptrmap, free, roots, fin, size, i) && i <= size && l.IsData(i) && i >= 2
    ensures i in ptrmap && (i in pages <==> ptrmap[i].kind != FreePage)
    ensures i in pages ==> (i in roots <==> ptrmap[i].kind == RootPage)
  {
    hide Layout.IsData;
    if i in pages {
      PageFacts(pages, ptrmap, roots, i);
    }
  }

  /** A file of which only the first page is live, when that is taken for a map page: nothing is moved. */
  ghost predicate Idle(l: Layout, pages: map<Pgno, Content>, ptrmap: map<Pgno, Entry>, free: set<Pgno>,
                       roots: set<Pgno>, size: nat)
    requires l.Valid()
  {
    FileOk(l, pages, ptrmap, free, roots, size) && pages.Keys == {1} && l.TakenForMap(1)
  }

  /** Where the run stands before page `i`. */
  ghost predicate At(l: Layout, pages: map<Pgno, Content>, ptrmap: map<Pgno, Entry>, free: set<Pgno>, roots: set<Pgno>,
                     fin: nat, size: nat, i: nat)
    requires l.Valid()
  {
    if fin == 0 then Idle(l, pages, ptrmap, free, roots, size)
    else Running(l, pages, ptrmap, free, roots, fin, size, i)
  }

  lemma {:induction false} IdleEntry(l: Layout, pages: map<Pgno, Content>, ptrmap: map<Pgno, Entry>, free: set<Pgno>,
                                     roots: set<Pgno>, size: nat, i: nat)
    requires l.Valid() && Idle(l, pages, ptrmap, free, roots, size) && 1 <= i <= size
    ensures roots == {1}
    ensures l.TakenForMap(i) || i == l.pending || (i in ptrmap && ptrmap[i].kind == FreePage && i != 1)
  {
    hide Layout.MapPage;
  }

  /** One page beyond the final size. */
  method MoveOne(db: Shared, l: Layout, ghost was: map<Pgno, Content>, ghost roots: set<Pgno>, fin: nat,
                 ghost size: nat, i: nat, ghost r: map<Pgno, Pgno>)
    returns (ok: bool, ghost r': map<Pgno, Pgno>)
    requires l.Valid() && At(l, db.pages, db.ptrmap, db.free, roots, fin, size, i) && fin < i <= size
    requires Renamed(was, db.pages, r) && 0 !in was && (forall p :: p in was ==> Inside(was[p], was.Keys))
    requires forall p :: p in roots ==> p in r && r[p] == p
    modifies db`pages, db`ptrmap, db`free
    ensures fin > 0 ==> (ok <==> i !in roots)
    ensures fin == 0 ==> ok && unchanged(db)
    ensures ok ==> At(l, db.pages, db.ptrmap, db.free, roots, fin, size, i + 1) && Renamed(was, db.pages, r')
    ensures ok ==> forall p :: p in roots ==> p in r' && r'[p] == p
  {
    hide Running, Renamed, Layout.IsData, Layout.IsMap, Layout.TakenForMap, RenameAll, Inside, Idle;
    r' := r;
    ok := true;
    if fin == 0 {
      IdleEntry(l, db.pages, db.ptrmap, db.free, roots, size, i);
    } else {
      NoRootBeyond(l, db.pages, db.ptrmap, db.free, roots, fin, size, i);
      SameTest(l, i);
    }
    if l.TakenForMap(i) || i == l.pending {
      if fin > 0 {
        NotData(l, db.pages, db.ptrmap, db.free, roots, fin, size, i);
        PassOver(l, db.pages, db.ptrmap, db.free, roots, fin, size, i);
      }
      return;
    }
    if fin > 0 {
      ItIsData(l, i);
      EntryFacts(l, db.pages, db.ptrmap, db.free, roots, fin, size, i);
    }
    var e := db.ptrmap[i];
    if e.kind == RootPage {
      return false, r;
    }
    if e.kind == FreePage {
      if fin > 0 {
        PassOver(l, db.pages, db.ptrmap, db.free, roots, fin, size, i);
      }
      return;
    }
    r' := MoveToPlace(db, l, was, roots, fin, size, i, e, r);
  }

  lemma {:induction false} SameTest(l: Layout, i: nat)
    requires l.Valid() && i >= 2
    ensures l.TakenForMap(i) <==> l.IsMap(i)
  {}

  method MoveToPlace(db: Shared, l: Layout, ghost was: map<Pgno, Content>, ghost roots: set<Pgno>, fin: nat,
                     ghost size: nat, i: nat, e: Entry, ghost r: map<Pgno, Pgno>)
    returns (ghost r': map<Pgno, Pgno>)
    requires l.Valid() && Running(l, db.pages, db.ptrmap, db.free, roots, fin, size, i) && fin < i <= size
    requires i in db.pages && i in db.ptrmap && db.ptrmap[i] == e && i !in roots
    requires Renamed(was, db.pages, r) && 0 !in was && (forall p :: p in was ==> Inside(was[p], was.Keys))
    requires forall p :: p in roots ==> p in r && r[p] == p
    modifies db`pages, db`ptrmap, db`free
    ensures Running(l, db.pages, db.ptrmap, db.free, roots, fin, size, i + 1) && Renamed(was, db.pages, r')
    ensures forall p :: p in roots ==> p in r' && r'[p] == p
  {
    hide Running, Renamed, Layout.IsData, Layout.MapPage, RenameAll, Inside, Inverse;
    var f := FindPlace(db, l, roots, fin, size, i);
    PlaceFacts(l, db.pages, db.ptrmap, db.free + {f}, roots, fin, size, i, f);
    ghost var pages0, map0 := db.pages, db.ptrmap;
    var moved := db.RelocatePage(i, e.kind, e.parent, f, roots);
    AfterMove(l, pages0, map0, db.free + {f}, roots, fin, size, i, f, db.pages, db.ptrmap);
    assert db.free + {f} - {f} == db.free;
    RenamedOnward(was, pages0, r, i, f);
    r' := Onward(r, i, f);
  }

  lemma {:induction false} ItIsData(l: Layout, i: nat)
    requires l.Valid() && i >= 1 && !l.IsMap(i) && i != l.pending
    ensures l.IsData(i)
  {}

  lemma {:induction false} NotData(l: Layout, pages: map<Pgno, Content>, ptrmap: map<Pgno, Entry>, free: set<Pgno>,
                                   roots: set<Pgno>, fin: nat, size: nat, i: nat)
    requires l.Valid() && Running(l, pages, ptrmap, free, roots, fin, size, i) && (l.IsMap(i) || i == l.pending)
    ensures i !in pages
  {
    hide Inverse, Layout.MapPage;
  }

  lemma {:induction false} NoRootBeyond(l: Layout, pages: map<Pgno, Content>, ptrmap: map<Pgno, Entry>, free: set<Pgno>,
                                        roots: set<Pgno>, fin: nat, size: nat, i: nat)
    requires l.Valid() && Running(l, pages, ptrmap, free, roots, fin, size, i)
    ensures roots <= pages.Keys && (i in pages ==> i != 0)
  {
    hide Layout.IsData;
  }

  /** Move every page beyond the final size to a free place below it, and forget the free list. False if a root page
      is in the way, or if the last page is taken for a map page. `room` is a fifth of the page size, with which the
      final size is estimated; the free pages in `lost` are within it, and on no list any more. With a size of zero
      the file is not cut at all. */
  method AutoVacuumCommit(db: Shared, l: Layout, room: nat, pageCount: nat, ghost roots: set<Pgno>)
    returns (ok: bool, nTrunc: nat, ghost r: map<Pgno, Pgno>, ghost lost: set<Pgno>)
    requires l.Valid() && l.n <= room
    requires FileOk(l, db.pages, db.ptrmap, db.free, roots, pageCount)
    modifies db
    ensures l.TakenForMap(pageCount) ==> !ok
    ensures !l.TakenForMap(pageCount) && old(db.free) == {} ==> ok && nTrunc == 0 && unchanged(db)
    ensures ok && old(db.free) != {} ==>
              var origSize, nFree := if pageCount == l.pending then pageCount - 1 else pageCount, |old(db.free)|;
              && (nTrunc == 0 <==> NoneKept(l, room, origSize, nFree)) && db.free == {}
              && if nTrunc == 0 then
                   db.pages == old(db.pages) && db.ptrmap == old(db.ptrmap) && lost == old(db.free)
                 else
                   && nTrunc < pageCount && nTrunc != l.pending && !l.IsMap(nTrunc)
                   && FileOk(l, db.pages, db.ptrmap, lost, roots, nTrunc)
                   && l.DataUpTo(nTrunc) + nFree == l.DataUpTo(pageCount) + |lost|
                   && (lost == {} <==> CutRight(l, room, origSize, nFree))
                   && Renamed(old(db.pages), db.pages, r) && (forall p :: p in roots ==> p in r && r[p] == p)
                   && forall p :: p in roots ==> p <= nTrunc
    ensures !ok ==> l.TakenForMap(pageCount) || (nTrunc > 0 && exists p :: p in roots && nTrunc < p)
  {
    hide Layout.IsData, Layout.IsMap, Layout.TakenForMap, Renamed, FileOk, Running, Inverse, CutRight, Idle;
    r, nTrunc, ok, lost := map[], 0, true, {};
    if l.TakenForMap(pageCount) {
      ok := false;
      return;
    }
    var nFree := |db.free|;
    if nFree == 0 {
      return;
    }
    ghost var was := db.pages;
    FirstLive(l, was, db.ptrmap, db.free, roots, pageCount);
    FreeCount(l, was, db.ptrmap, db.free, roots, pageCount);
    var origSize, finSize := FinalSize(l, room, pageCount, nFree);
    nTrunc := finSize;
    LeftOver(l, was, db.ptrmap, db.free, roots, pageCount);
    SameFile(l, was, db.ptrmap, db.free, roots, pageCount, origSize);
    if finSize == 0 {
      OnlyFirst(l, was, db.ptrmap, db.free, roots, origSize);
      lost := db.free;
    } else {
      StartRunning(l, was, db.ptrmap, db.free, roots, finSize, origSize);
    }
    r := map p | p in was :: p;
    NothingRenamed(was);
    WasInside(l, was, db.ptrmap, db.free, roots, origSize);
    var i := finSize + 1;
    while i <= origSize
      invariant finSize < i <= origSize + 1 && At(l, db.pages, db.ptrmap, db.free, roots, finSize, origSize, i)
      invariant Renamed(was, db.pages, r) && forall p :: p in roots ==> p in r && r[p] == p
      invariant finSize == 0 ==> unchanged(db)
    {
      ok, r := MoveOne(db, l, was, roots, finSize, origSize, i, r);
      if !ok {
        return;
      }
      i := i + 1;
    }
    if finSize > 0 {
      lost := Below(db.free, finSize);
      RunDone(l, db.pages, db.ptrmap, db.free, roots, finSize, origSize);
      LeftOver(l, db.pages, db.ptrmap, lost, roots, finSize);
      RenamedSize(was, db.pages, r);
      RootsBelow(l, db.pages, db.ptrmap, lost, roots, finSize);
    }
    db.free := {};
  }

  lemma {:induction false} FirstLive(l: Layout, pages: map<Pgno, Content>, ptrmap: map<Pgno, Entry>, free: set<Pgno>,
                                     roots: set<Pgno>, size: nat)
    requires l.Valid() && FileOk(l, pages, ptrmap, free, roots, size)
    ensures 1 in pages
  {
    hide Layout.IsData;
  }

  lemma {:induction false} OnlyFirst(l: Layout, pages: map<Pgno, Content>, ptrmap: map<Pgno, Entry>, free: set<Pgno>,
                                     roots: set<Pgno>, size: nat)
    requires l.Valid() && FileOk(l, pages, ptrmap, free, roots, size) && |free| + 1 == l.DataUpTo(size)
             && l.TakenForMap(1)
    ensures Idle(l, pages, ptrmap, free, roots, size)
  {
    hide Layout.IsData, Inverse, Layout.TakenForMap;
    LeftOver(l, pages, ptrmap, free, roots, size);
    FirstLive(l, pages, ptrmap, free, roots, size);
    assert |pages.Keys - {1}| == 0;
  }

  lemma {:induction false} FreeCount(l: Layout, pages: map<Pgno, Content>, ptrmap: map<Pgno, Entry>, free: set<Pgno>,
                                     roots: set<Pgno>, size: nat)
    requires l.Valid() && FileOk(l, pages, ptrmap, free, roots, size) && 1 in pages
    ensures |free| < l.DataUpTo(size)
  {
    hide FileOk, Layout.IsData;
    LeftOver(l, pages, ptrmap, free, roots, size);
    assert 1 in pages.Keys;
  }

  lemma {:induction false} SameFile(l: Layout, pages: map<Pgno, Content>, ptrmap: map<Pgno, Entry>, free: set<Pgno>,
                                    roots: set<Pgno>, size: nat, size': nat)
    requires l.Valid() && FileOk(l, pages, ptrmap, free, roots, size)
             && size' == if size == l.pending then size - 1 else size
    ensures FileOk(l, pages, ptrmap, free, roots, size')
  {
    hide Inverse, Layout.MapPage;
  }

  lemma {:induction false} WasInside(l: Layout, pages: map<Pgno, Content>, ptrmap: map<Pgno, Entry>, free: set<Pgno>,
                                     roots: set<Pgno>, size: nat)
    requires l.Valid() && FileOk(l, pages, ptrmap, free, roots, size)
    ensures 0 !in pages && roots <= pages.Keys && forall p :: p in pages ==> Inside(pages[p], pages.Keys)
  {
    hide Layout.IsData, Inside;
    forall p | p in pages ensures Inside(pages[p], pages.Keys) {
      InverseInside(pages, ptrmap, roots, p);
    }
  }

  lemma {:induction false} RootsBelow(l: Layout, pages: map<Pgno, Content>, ptrmap: map<Pgno, Entry>, lost: set<Pgno>,
                                      roots: set<Pgno>, fin: nat)
    requires l.Valid() && FileOk(l, pages, ptrmap, lost, roots, fin)
    ensures forall p :: p in roots ==> p <= fin
  {
    hide Layout.IsData;
  }
}
