/** How large the file is after an auto-vacuum: where pointer-map pages are, how many pages hold
    data, and the arithmetic that says how far the file can be cut. */
module VacuumSize {
  import opened Arithmetic

  const TWO32 := 0x1_0000_0000

  /** A file with `n` pointer-map entries to a map page, and the page of the pending byte. */
  datatype Layout = Layout(n: nat, pending: nat) {
    ghost predicate Valid() { n >= 2 && pending >= 2 }

    /** Pages of a group: a map page and those it describes. */
    function Group(): nat { n + 1 }

    /** ptrmapPageno: the map page that describes a page. */
    function MapPage(pgno: int): int
      requires Valid()
    {
      var ret := (pgno - 2) / Group() * Group() + 2;
      if ret == pending then ret + 1 else ret
    }

    predicate IsMap(pgno: int)
      requires Valid()
    {
      pgno >= 2 && MapPage(pgno) == pgno
    }

    /** The number as it is computed: before page 2 the unsigned difference wraps around. */
    function MapPageno(pgno: nat): nat
      requires Valid()
    {
      if pgno >= 2 then MapPage(pgno)
      else
        var ret := ((pgno + TWO32 - 2) / Group() * Group() + 2) % TWO32;
        if ret == pending then ret + 1 else ret
    }

    /** PTRMAP_ISPAGE. */
    predicate TakenForMap(pgno: nat)
      requires Valid()
    {
      MapPageno(pgno) == pgno
    }

    /** A page that is neither a map page nor the pending page. */
    predicate IsData(pgno: int)
      requires Valid()
    {
      pgno >= 1 && !IsMap(pgno) && pgno != pending
    }

    /** Data pages numbered at most `p`. */
    ghost function DataUpTo(p: int): (c: nat)
      requires Valid()
      decreases p
    {
      if p < 1 then 0 else DataUpTo(p - 1) + (if IsData(p) then 1 else 0)
    }
  }

  /** Page 1 is taken for a map page just if the number of pages in a group, a map page and those it describes, divides
      2^32 - 1. */
  lemma {:induction false} FirstTaken(l: Layout)
    requires l.Valid()
    ensures l.TakenForMap(1) <==> 0xffff_ffff % l.Group() == 0
    ensures l.TakenForMap(1) ==> !l.TakenForMap(0)
  {
    var g := l.Group();
    var q, r := 0xffff_ffff / g, 0xffff_ffff % g;
    assert q * g == 0xffff_ffff - r;
    if r == 0 {
      assert 0xffff_fffe == (q - 1) * g + (g - 1);
      DivUnique(0xffff_fffe, g, q - 1, g - 1);
    }
  }

  /** It is for pages of 4096 bytes of which 242 to 246 are reserved. */
  lemma {:induction false} FirstTakenAt(reserved: nat)
    requires 242 <= reserved <= 246
    ensures Layout((4096 - reserved) / 5, 0x4000_0000 / 4096 + 1).TakenForMap(1)
  {
    var l := Layout((4096 - reserved) / 5, 0x4000_0000 / 4096 + 1);
    assert l.Group() == 771 && 771 * 5570645 == 0xffff_ffff;
    FirstTaken(l);
  }

  // ------------------------------------------------------------ groups

  /** A page by its group and its place in it. */
  lemma {:induction false} Place(l: Layout, p: int) returns (g: int, r: nat)
    requires l.Valid()
    ensures g == (p - 2) / l.Group() && r == (p - 2) % l.Group() < l.Group() && p == 2 + g * l.Group() + r
  {
    g, r := (p - 2) / l.Group(), (p - 2) % l.Group();
  }

  /** Map pages are the first of their group, unless that is the pending page. */
  lemma {:induction false} MapAt(l: Layout, p: int, g: int, r: nat)
    requires l.Valid() && p >= 2 && p == 2 + g * l.Group() + r && r < l.Group()
    ensures l.MapPage(p) == p - r + (if p - r == l.pending then 1 else 0)
    ensures l.IsMap(p) <==> (r == 0 && p != l.pending) || (r == 1 && p - 1 == l.pending)
  {
    DivUnique(p - 2, l.Group(), g, r);
  }

  /** Every data page but the first has an entry of its own: within its map page, and shared with no other page. */
  lemma {:induction false} MapEntries(l: Layout, p: int, p': int)
    requires l.Valid() && 2 <= p && l.IsData(p) && 2 <= p' && l.IsData(p')
    ensures 0 <= p - l.MapPage(p) - 1 < l.n && l.MapPage(p) != l.pending && l.IsMap(l.MapPage(p))
    ensures l.MapPage(p) == l.MapPage(p') && p - l.MapPage(p) - 1 == p' - l.MapPage(p') - 1 ==> p == p'
  {
    hide Layout.MapPage;
    var g, r := Place(l, p);
    MapAt(l, p, g, r);
    var g', r' := Place(l, p');
    MapAt(l, p', g', r');
    var first := p - r;
    FirstGroup(l.Group(), g, r);
    assert g * l.Group() >= 0;
    MapAt(l, first, g, 0);
    if first == l.pending {
      MapAt(l, first + 1, g, 1);
    }
  }

  /** The number of data pages in closed form. */
  ghost function Formula(l: Layout, p: int): int
    requires l.Valid()
  {
    p - ((p - 2) / l.Group() + 1) - (if l.pending <= p then 1 else 0)
    + (if p == l.pending && (p - 2) % l.Group() == 0 then 1 else 0)
  }

  lemma {:induction false} FormulaIs(l: Layout, p: int, g: int, r: nat)
    requires l.Valid() && p == 2 + g * l.Group() + r && r < l.Group()
    ensures Formula(l, p) == p - (g + 1) - (if l.pending <= p then 1 else 0)
            + (if p == l.pending && r == 0 then 1 else 0)
  {
    DivUnique(p - 2, l.Group(), g, r);
  }

  /** The page before: of the same group, or the last of the group before. */
  lemma {:induction false} FormulaBefore(l: Layout, p: int, g: int, r: nat)
    requires l.Valid() && p == 2 + g * l.Group() + r && r < l.Group()
    ensures Formula(l, p - 1) ==
            p - 1 - (if r == 0 then g else g + 1) - (if l.pending <= p - 1 then 1 else 0)
            + (if p - 1 == l.pending && r == 1 then 1 else 0)
  {
    hide Formula;
    if r == 0 {
      assert (g - 1) * l.Group() == g * l.Group() - l.Group();
      FormulaIs(l, p - 1, g - 1, l.Group() - 1);
    } else {
      FormulaIs(l, p - 1, g, r - 1);
    }
  }

  lemma {:induction false} DataFormula(l: Layout, p: int)
    requires l.Valid() && p >= 1
    ensures l.DataUpTo(p) == Formula(l, p)
    decreases p
  {
    hide Formula, Layout.MapPage;
    if p == 1 {
      FormulaIs(l, 1, -1, l.n);
      assert l.DataUpTo(0) == 0;
    } else {
      DataFormula(l, p - 1);
      var g, r := Place(l, p);
      MapAt(l, p, g, r);
      FormulaIs(l, p, g, r);
      FormulaBefore(l, p, g, r);
    }
  }

  lemma {:induction false} DataMonotonic(l: Layout, p: int, q: int)
    requires l.Valid() && p <= q
    ensures l.DataUpTo(p) <= l.DataUpTo(q)
    decreases q - p
  {
    if p < q {
      DataMonotonic(l, p, q - 1);
    }
  }

  // ------------------------------------------------------------ the final size

  /** Map pages no longer needed, when a map page is taken to have room for `room` entries. */
  function MapsGone(l: Layout, origSize: int, nFree: nat, room: nat): int
    requires l.Valid() && room > 0
  {
    (nFree - origSize + l.MapPage(origSize) + room) / room
  }

  /** The first estimate: free pages, map pages no longer needed, and the pending page leave. */
  function CutFor(l: Layout, origSize: int, nFree: nat, room: nat): int
    requires l.Valid() && room > 0
  {
    var finSize := origSize - nFree - MapsGone(l, origSize, nFree, room);
    if origSize > l.pending && finSize <= l.pending then finSize - 1 else finSize
  }

  /** The estimate from the entries a map page really has. */
  ghost function FirstCut(l: Layout, origSize: int, nFree: nat): int
    requires l.Valid()
  {
    CutFor(l, origSize, nFree, l.n)
  }

  /** The estimate by group and place: `k` and `r` of the file's last page, `q` groups back. */
  lemma {:induction false} CutAt(l: Layout, origSize: int, nFree: nat) returns (k: int, r: nat, e: nat, q: nat, s: nat)
    requires l.Valid() && origSize >= 2 && origSize != l.pending
    ensures r < l.Group() && origSize == 2 + k * l.Group() + r && 0 <= k
    ensures e == (if origSize - r == l.pending then 1 else 0) && (e == 1 ==> r >= 1) && s < l.n
            && nFree + l.n == q * l.n + s + r - e
    ensures var fin := 2 + (k - q) * l.Group() + (l.n - s) + e;
            && fin == origSize - nFree - q
            && FirstCut(l, origSize, nFree) == if origSize > l.pending && fin <= l.pending then fin - 1 else fin
  {
    hide Layout.MapPage;
    k, r := Place(l, origSize);
    MapAt(l, origSize, k, r);
    FirstGroup(l.Group(), k, r);
    e := if origSize - r == l.pending then 1 else 0;
    assert e == 1 ==> r >= 1;
    var x := nFree - origSize + l.MapPage(origSize) + l.n;
    assert x == nFree - r + e + l.n >= 0;
    PlaceIn(x, l.n);
    q, s := x / l.n, x % l.n;
    GroupsBack(k, q, l.n);
  }

  lemma {:induction false} FirstGroup(m: nat, k: int, r: nat)
    requires m > 0 && r < m && k * m + r >= 0
    ensures k >= 0
  {
    if k < 0 {
      Times(k, -1, m);
    }
  }

  lemma {:induction false} GroupsBack(k: int, q: int, n: nat)
    ensures (k - q) * (n + 1) == k * (n + 1) - q * n - q
  {}

  lemma {:induction false} PlaceIn(x: int, n: nat)
    requires x >= 0 && n > 0
    ensures x == x / n * n + x % n && x / n >= 0 && x % n < n
  {}

  /** Cutting off at the first estimate takes away as many data pages as are free. */
  lemma {:induction false} FirstCutExact(l: Layout, origSize: int, nFree: nat)
    requires l.Valid() && origSize >= 2 && origSize != l.pending
    ensures Formula(l, FirstCut(l, origSize, nFree)) + nFree == Formula(l, origSize)
  {
    hide Formula, Layout.MapPage, FirstCut;
    var k, r, e, q, s := CutAt(l, origSize, nFree);
    FormulaIs(l, origSize, k, r);
    var fin, g := 2 + (k - q) * l.Group() + (l.n - s) + e, k - q;
    if l.n - s + e < l.Group() {
      FormulaIs(l, fin, g, l.n - s + e);
      FormulaBefore(l, fin, g, l.n - s + e);
    } else {
      FormulaBefore(l, fin, g + 1, 0);
      FormulaIs(l, fin, g + 1, 0);
    }
  }

  /** All pages but the first are to go, and the first is taken for a map page, with no room for any other. */
  ghost predicate NoneKept(l: Layout, room: nat, origSize: nat, nFree: nat)
    requires l.Valid() && l.n <= room
  {
    l.TakenForMap(1) && nFree + 1 == l.DataUpTo(origSize) && CutRight(l, room, origSize, nFree)
  }

  /** The size of the file after an auto-vacuum, as computed before any page is moved. A map page has `l.n` entries,
      a fifth of the bytes of a page in use; the estimate is made with `room`, a fifth of all its bytes. */
  method FinalSize(l: Layout, room: nat, pageCount: nat, nFree: nat) returns (origSize: nat, finSize: nat)
    requires l.Valid() && l.n <= room && !l.TakenForMap(pageCount) && 0 < nFree < l.DataUpTo(pageCount)
    ensures origSize == (if pageCount == l.pending then pageCount - 1 else pageCount)
            && l.DataUpTo(origSize) == l.DataUpTo(pageCount)
    ensures finSize == 0 <==> NoneKept(l, room, origSize, nFree)
    ensures finSize > 0 ==>
              && finSize < origSize && !l.IsMap(finSize) && finSize != l.pending
              && (l.DataUpTo(finSize) + nFree == l.DataUpTo(origSize) <==> CutRight(l, room, origSize, nFree))
              && l.DataUpTo(finSize) + nFree >= l.DataUpTo(origSize)
  {
    hide Layout.MapPage, CutRight, CutFor;
    SomePages(l, pageCount);
    origSize := pageCount;
    if origSize == l.pending {
      origSize := origSize - 1;
    }
    assert l.DataUpTo(origSize) == l.DataUpTo(pageCount);
    SomePages(l, origSize);
    var fin := CutFor(l, origSize, nFree, room);
    ReservedBytes(l, room, origSize, nFree);
    FirstTaken(l);
    ghost var all := l.DataUpTo(fin);
    while l.TakenForMap(fin) || fin == l.pending
      invariant 0 <= fin < origSize && all >= 1
      invariant fin > 0 ==> l.DataUpTo(fin) == all
      invariant fin == 0 ==> l.TakenForMap(1) && all == 1
      decreases fin
    {
      assert l.DataUpTo(0) == 0 && l.DataUpTo(1) == 1;
      fin := fin - 1;
    }
    assert l.DataUpTo(0) == 0 && l.DataUpTo(1) == 1;
    OneLeft(l, fin);
    finSize := fin;
  }

  /** One data page up to a page that is one itself: it is the first. */
  lemma {:induction false} OneLeft(l: Layout, p: nat)
    requires l.Valid()
    ensures p > 1 && l.IsData(p) ==> l.DataUpTo(p) > 1
  {
    hide Layout.MapPage;
    if p > 1 && l.IsData(p) {
      Grows(l, 1, p - 1);
    }
  }

  lemma {:induction false} Grows(l: Layout, a: nat, b: nat)
    requires l.Valid() && a <= b
    ensures l.DataUpTo(a) <= l.DataUpTo(b)
    decreases b
  {
    hide Layout.IsData;
    if a < b {
      Grows(l, a, b - 1);
    }
  }

  /** With more than one data page left the cut is not below the first page. */
  lemma {:induction false} CutPositive(l: Layout, fin: int)
    requires l.Valid() && Formula(l, fin) >= 1
    ensures fin >= 1
  {
    var g, r := Place(l, fin);
    FormulaIs(l, fin, g, r);
    if fin < 1 {
      FirstGroup(l.Group(), -g - 1, l.Group() - 1 - r);
      Times(g, -1, l.Group());
    }
  }

  lemma {:induction false} SomePages(l: Layout, p: int)
    requires l.Valid() && l.DataUpTo(p) >= 2
    ensures p >= 2
  {
    assert l.DataUpTo(0) == 0;
    assert l.DataUpTo(1) <= 1;
  }

  // ------------------------------------------------------------ reserved bytes

  /** The last page of the file is of the group whose first page is the pending page. */
  ghost predicate PendingFirst(l: Layout, origSize: int)
    requires l.Valid()
  {
    l.MapPage(origSize) == l.pending + 1 && (l.pending - 2) % l.Group() == 0
  }

  /** When the estimate is right, though it takes a map page to have `room` entries and there are but `l.n`. Of the
      pages to go, `d` are more than the file's last group has: `groups` whole groups, and `rest` pages of another.
      The estimate is right if the last group is enough; or if the rest makes up for the entries overestimated in
      those groups; or if it is just one page short, and the page kept for that is a map page anyway. */
  ghost predicate CutRight(l: Layout, room: nat, origSize: int, nFree: nat)
    requires l.Valid() && l.n <= room
  {
    var d := nFree - origSize + l.MapPage(origSize);
    var groups, rest, more := d / l.n, d % l.n, room - l.n;
    || d < 0
    || rest >= groups * more
    || (&& rest == 0 && groups * more <= room
        && (origSize < l.pending || PendingFirst(l, origSize) || origSize - nFree - groups - 1 >= l.pending))
  }

  /** Without reserved bytes it is always right. */
  lemma {:induction false} NoReservedBytes(l: Layout, origSize: int, nFree: nat)
    requires l.Valid()
    ensures CutRight(l, l.n, origSize, nFree)
  {
    hide Layout.MapPage;
    NoTimes((nFree - origSize + l.MapPage(origSize)) / l.n);
  }

  lemma {:induction false} NoTimes(a: int)
    ensures a * 0 == 0
  {}

  lemma {:induction false} FloorAtLeast(x: int, m: nat, c: int)
    requires m > 0
    ensures x / m >= c <==> x >= c * m
  {
    var y := x / m;
    assert x == y * m + x % m;
    if y >= c {
      Times(c, y, m);
    } else {
      Times(y + 1, c, m);
    }
  }

  /** How many map pages the estimate counts, against the `q` it should. */
  lemma {:induction false} GoneBy(d: int, n: nat, room: nat, q: nat, s: nat)
    requires 0 < n <= room && d == (q - 1) * n + s && s < n
    ensures d / n == q - 1 && d % n == s && (d + room) / room <= q && (d < 0 <==> q == 0)
            && (q == 0 ==> (d + room) / room == 0)
    ensures q > 0 ==> ((d + room) / room >= q <==> s >= (q - 1) * (room - n))
    ensures q > 0 && s == 0 ==> ((d + room) / room >= q - 1 <==> (q - 1) * (room - n) <= room)
    ensures (d + room) / room >= 0
  {
    DivUnique(d, n, q - 1, s);
    FloorAtLeast(d + room, room, q + 1);
    FloorAtLeast(d + room, room, q);
    FloorAtLeast(d + room, room, q - 1);
    FloorAtLeast(d + room, room, 0);
    Spread(q, n, room);
    if q > 0 {
      TimesLeft(n, room, q - 1);
      Times(0, q - 1, n);
    }
  }

  lemma {:induction false} Spread(q: int, n: int, room: int)
    ensures (q - 1) * (room - n) == (q - 1) * room - (q - 1) * n
    ensures (q + 1) * room == (q - 1) * room + 2 * room && q * room == (q - 1) * room + room
            && (q - 1 - 1) * room == (q - 1) * room - room
  {}

  /** What kind of page there is at a place in a group. */
  lemma {:induction false} KindAt(l: Layout, p: int, g: int, r: nat)
    requires l.Valid() && p >= 1 && p == 2 + g * l.Group() + r && r < l.Group()
    ensures l.IsData(p) <==> p != l.pending && r != 0 && !(r == 1 && p - 1 == l.pending)
  {
    hide Layout.MapPage;
    if p == 1 {
      DivUnique(-1, l.Group(), -1, l.n);
      DivUnique(-1, l.Group(), g, r);
    } else {
      MapAt(l, p, g, r);
    }
  }

  /** The count of data pages stays the same just over pages that are none. */
  lemma {:induction false} NoneBetween(l: Layout, lo: int, hi: int)
    requires l.Valid() && 0 <= lo <= hi
    ensures l.DataUpTo(hi) == l.DataUpTo(lo) <==> forall p :: lo < p <= hi ==> !l.IsData(p)
    ensures l.DataUpTo(hi) >= l.DataUpTo(lo)
    decreases hi - lo
  {
    hide Layout.IsData;
    if lo < hi {
      NoneBetween(l, lo, hi - 1);
    }
  }

  /** With bytes reserved at the end of a page the estimate never cuts off too much; and exactly enough just in
      these cases. */
  lemma {:induction false} ReservedBytes(l: Layout, room: nat, origSize: int, nFree: nat)
    requires l.Valid() && l.n <= room && origSize >= 2 && origSize != l.pending && 0 < nFree < l.DataUpTo(origSize)
    ensures var fin := CutFor(l, origSize, nFree, room);
            && 1 <= fin < origSize && l.DataUpTo(fin) + nFree >= l.DataUpTo(origSize)
            && (l.DataUpTo(fin) + nFree == l.DataUpTo(origSize) <==> CutRight(l, room, origSize, nFree))
  {
    hide Formula, Layout.MapPage, FirstCut, Layout.IsData;
    var good := FirstCut(l, origSize, nFree);
    FirstCutExact(l, origSize, nFree);
    DataFormula(l, origSize);
    CutPositive(l, good);
    DataFormula(l, good);
    CutsCompared(l, room, origSize, nFree);
    NoneBetween(l, good, CutFor(l, origSize, nFree, room));
  }

  /** Which pages the estimate keeps too many, and whether they are data pages. */
  lemma {:induction false} CutsCompared(l: Layout, room: nat, origSize: int, nFree: nat)
    requires l.Valid() && l.n <= room && origSize >= 2 && origSize != l.pending && 0 < nFree
             && FirstCut(l, origSize, nFree) >= 1
    ensures var good, fin := FirstCut(l, origSize, nFree), CutFor(l, origSize, nFree, room);
            good <= fin < origSize && ((forall p :: good < p <= fin ==> !l.IsData(p))
                                       <==> CutRight(l, room, origSize, nFree))
  {
    hide Layout.MapPage, Layout.IsData;
    var k, r, e, q, s := CutAt(l, origSize, nFree);
    var d := nFree - origSize + l.MapPage(origSize);
    MapAt(l, origSize, k, r);
    assert d == (q - 1) * l.n + s;
    GoneBy(d, l.n, room, q, s);
    var delta: nat := q - MapsGone(l, origSize, nFree, room);
    if delta > 0 {
      FewerCut(l, origSize, nFree, k, r, e, q, s, delta);
    }
  }

  /** The page after one in group `g`, and the one after that. */
  lemma {:induction false} NextKinds(l: Layout, p: int, g: int, r: nat)
    requires l.Valid() && p >= 1 && p == 2 + g * l.Group() + r && 1 <= r < l.Group()
    ensures p + 1 != l.pending ==> (l.IsData(p + 1) <==> r < l.n)
    ensures r == l.n ==> !l.IsData(p + 1) && (p + 2 != l.pending && p + 1 != l.pending ==> l.IsData(p + 2))
  {
    hide Layout.IsData;
    if r == l.n {
      assert (g + 1) * l.Group() == g * l.Group() + l.Group();
      KindAt(l, p + 1, g + 1, 0);
      KindAt(l, p + 2, g + 1, 1);
    } else {
      KindAt(l, p + 1, g, r + 1);
    }
  }

  lemma {:induction false} FirstOfGroup(l: Layout, origSize: int, k: int, r: nat, e: nat)
    requires l.Valid() && origSize == 2 + k * l.Group() + r
    requires e == (if origSize - r == l.pending then 1 else 0) && l.MapPage(origSize) == origSize - r + e
    ensures PendingFirst(l, origSize) <==> e == 1
  {
    hide Layout.MapPage;
    if e == 1 {
      DivUnique(l.pending - 2, l.Group(), k, 0);
    } else if l.MapPage(origSize) == l.pending + 1 {
      assert (k - 1) * l.Group() == k * l.Group() - l.Group();
      DivUnique(l.pending - 2, l.Group(), k - 1, l.n);
    }
  }

  /** `delta` map pages too few are counted. The right cut is page `t`, or the one before it. */
  lemma {:induction false} FewerCut(l: Layout, origSize: int, nFree: nat, k: int, r: nat, e: nat, q: nat, s: nat,
                                    delta: nat)
    requires l.Valid() && origSize == 2 + k * l.Group() + r && r < l.Group() && origSize != l.pending && s < l.n
             && q >= 2 && delta >= 1
    requires e == (if origSize - r == l.pending then 1 else 0) && l.MapPage(origSize) == origSize - r + e
    requires var t := 2 + (k - q) * l.Group() + (l.n - s) + e;
             && t == origSize - nFree - q && t + delta < origSize
             && (if origSize > l.pending && t <= l.pending then t - 1 else t) >= 1
    ensures var t := origSize - nFree - q;
            var good := if origSize > l.pending && t <= l.pending then t - 1 else t;
            var fin := if origSize > l.pending && t + delta <= l.pending then t + delta - 1 else t + delta;
            (forall p :: good < p <= fin ==> !l.IsData(p)) <==>
              s == 0 && delta == 1 && (origSize < l.pending || PendingFirst(l, origSize) || t >= l.pending)
  {
    hide Layout.MapPage, Layout.IsData;
    var t, g, m := origSize - nFree - q, k - q, l.Group();
    FirstOfGroup(l, origSize, k, r, e);
    assert (g + 1) * m == g * m + m;
    if e == 1 {
      assert (k - 1) * m == k * m - m;
      Times(g + 1, k - 1, m);
      if s == 0 {
        KindAt(l, t, g + 1, 0);
        KindAt(l, t + 1, g + 1, 1);
      } else {
        KindAt(l, t, g, l.n - s + 1);
      }
    } else {
      KindAt(l, t, g, l.n - s);
      NextKinds(l, t, g, l.n - s);
    }
  }

  /** Twelve bytes reserved on pages of 512: a map page has 100 entries, not 102; of 310 pages 106 are free, and one
      page too few is cut off. */
  lemma {:induction false} ReservedCutWrong()
    ensures var l := Layout(100, 2097153); l.Valid() && !CutRight(l, 102, 310, 106)
  {}
}
