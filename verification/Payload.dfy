/** The payload of a cell: what stays on the page, and the chain of overflow pages with the rest. */
module Payload {
  import opened Arithmetic
  import opened Basics
  import opened BtreeCell

  type Pgno = nat

  // ------------------------------------------------------------ how much stays on the page

  /** Overflow pages for so many bytes. */
  ghost function PagesFor(rest: nat, ovfl: nat): nat
    requires ovfl > 0
  {
    (rest + ovfl - 1) / ovfl
  }

  /** `n` pages are what `rest` bytes need. */
  ghost predicate Needs(rest: nat, ovfl: nat, n: nat) {
    rest <= n * ovfl && (n > 0 ==> (n - 1) * ovfl < rest)
  }

  lemma {:induction false} PagesNeeded(rest: nat, ovfl: nat, n: nat)
    requires ovfl > 0
    ensures Needs(rest, ovfl, n) <==> n == PagesFor(rest, ovfl)
  {
    var x := rest + ovfl - 1;
    var m := x / ovfl;
    assert x == m * ovfl + x % ovfl;
    assert Needs(rest, ovfl, m);
    if Needs(rest, ovfl, n) && n > 0 {
      DivUnique(x, ovfl, n, rest - (n - 1) * ovfl - 1);
    } else if Needs(rest, ovfl, n) {
      DivUnique(x, ovfl, 0, ovfl - 1);
    }
  }

  /** More bytes on the page never need more pages. */
  lemma {:induction false} FewerBytes(a: nat, b: nat, ovfl: nat)
    requires ovfl > 0 && a <= b
    ensures PagesFor(a, ovfl) <= PagesFor(b, ovfl)
  {
    var n, m := PagesFor(a, ovfl), PagesFor(b, ovfl);
    PagesNeeded(a, ovfl, n);
    PagesNeeded(b, ovfl, m);
    if n > m {
      Times(m, n - 1, ovfl);
    }
  }

  lemma {:induction false} PagesAre(rest: nat, ovfl: nat, q: nat, part: nat)
    requires ovfl > 0 && rest == q * ovfl + part && part <= ovfl
    ensures PagesFor(rest, ovfl) == q + if part > 0 then 1 else 0
  {
    assert (q + 1) * ovfl == q * ovfl + ovfl;
    if part == 0 {
      DivUnique(rest + ovfl - 1, ovfl, q, ovfl - 1);
    } else {
      DivUnique(rest + ovfl - 1, ovfl, q + 1, part - 1);
    }
  }

  /** Of all the local sizes a page allows, the one chosen needs the fewest overflow pages; and then either the last of
      them is full, or no more than the least is kept. */
  lemma {:induction false} LocalSizeBest(kind: CellKind, nPayload: nat, l: nat)
    requires kind.Valid() && kind.maxLocal < kind.usable - 4 && nPayload > kind.maxLocal
             && kind.minLocal <= l <= kind.maxLocal
    ensures var local, ovfl := LocalSize(kind, nPayload), kind.usable - 4;
            && kind.minLocal <= local <= kind.maxLocal
            && PagesFor(nPayload - local, ovfl) <= PagesFor(nPayload - l, ovfl)
            && (local == kind.minLocal || (nPayload - local) % ovfl == 0)
  {
    hide PagesFor;
    var ovfl := kind.usable - 4;
    var q, r := (nPayload - kind.minLocal) / ovfl, (nPayload - kind.minLocal) % ovfl;
    assert nPayload - kind.minLocal == q * ovfl + r;
    var most, slack := nPayload - kind.maxLocal, kind.maxLocal - kind.minLocal;
    FewerBytes(most, nPayload - l, ovfl);
    if r <= slack {
      DivUnique(q * ovfl, ovfl, q, 0);
      PagesAre(q * ovfl, ovfl, q, 0);
      assert q == 0 ==> q * ovfl == 0;
      LessOne(q, ovfl);
      PagesAre(most, ovfl, q - 1, ovfl - (slack - r));
    } else {
      PagesAre(q * ovfl + r, ovfl, q, r);
      PagesAre(most, ovfl, q, r - slack);
    }
  }

  lemma {:induction false} LessOne(q: int, m: int)
    ensures (q - 1) * m == q * m - m
  {}

  /** The limits a page of `usable` bytes sets, from the fractions in the file header, are as small as that. */
  lemma {:induction false} LimitsSmall(usable: nat, frac: nat)
    requires usable >= 12 && frac <= 255
    ensures (usable - 12) * frac / 255 - 23 < usable - 4 && usable - 35 < usable - 4
  {
    assert (usable - 12) * frac <= (usable - 12) * 255 by {
      Times(frac, 255, usable - 12);
    }
    DivUnique((usable - 12) * 255, 255, usable - 12, 0);
  }

  // ------------------------------------------------------------ where the bytes are

  /** Where the payload of a cell begins, how much of it is local, and how much an overflow page holds. */
  datatype Shape = Shape(h: nat, nLocal: nat, ovfl: nat)

  /** Byte `q` of a payload. */
  ghost function ByteAt(sh: Shape, cell: seq<Byte>, pages: map<Pgno, seq<Byte>>, chain: seq<Pgno>, q: nat): Byte
    requires sh.ovfl > 0
  {
    if q < sh.nLocal then At(cell, sh.h + q)
    else
      var i, o := (q - sh.nLocal) / sh.ovfl, (q - sh.nLocal) % sh.ovfl;
      if i < |chain| && chain[i] in pages then At(pages[chain[i]], 4 + o) else 0
  }

  ghost function Next(chain: seq<Pgno>, i: int): Pgno { if 0 <= i + 1 < |chain| then chain[i + 1] else 0 }

  ghost predicate LinkAt(pages: map<Pgno, seq<Byte>>, chain: seq<Pgno>, ovfl: nat, i: nat)
    requires i < |chain|
  {
    chain[i] in pages && |pages[chain[i]]| == ovfl + 4 && chain[i] != 0 && Num(pages[chain[i]][..4]) == Next(chain, i)
  }

  ghost predicate Distinct(chain: seq<Pgno>) { forall i, j :: 0 <= i < j < |chain| ==> chain[i] != chain[j] }

  ghost predicate Chained(pages: map<Pgno, seq<Byte>>, chain: seq<Pgno>, ovfl: nat) {
    Distinct(chain) && forall i :: 0 <= i < |chain| ==> LinkAt(pages, chain, ovfl, i)
  }

  /** The bytes before `p` are in their places; the chain is as long as they need, and one page is begun only for a byte
      there is. */
  ghost predicate Laid(sh: Shape, cell: seq<Byte>, pages: map<Pgno, seq<Byte>>, chain: seq<Pgno>, payload: seq<Byte>,
                       p: nat) {
    && sh.ovfl > 0 && p <= |payload| && sh.h + sh.nLocal + 4 * (if chain == [] then 0 else 1) <= |cell|
    && (chain != [] ==> Num(cell[sh.h + sh.nLocal..sh.h + sh.nLocal + 4]) == chain[0])
    && Chained(pages, chain, sh.ovfl)
    && p <= sh.nLocal + |chain| * sh.ovfl
    && (chain != [] ==> sh.nLocal + (|chain| - 1) * sh.ovfl <= p && sh.nLocal + (|chain| - 1) * sh.ovfl < |payload|)
    && forall q :: 0 <= q < p ==> ByteAt(sh, cell, pages, chain, q) == payload[q]
  }

  ghost function ShapeOf(kind: CellKind, cell: seq<Byte>): Shape
    requires kind.Valid()
  {
    Shape(ParseCell(kind, cell).nHeader, ParseCell(kind, cell).nLocal, kind.usable - 4)
  }

  /** The cell has this payload, with its overflow in this chain. */
  ghost predicate Holds(kind: CellKind, cell: seq<Byte>, pages: map<Pgno, seq<Byte>>, chain: seq<Pgno>,
                        payload: seq<Byte>)
    requires kind.Valid()
  {
    && ParseCell(kind, cell).nPayload == |payload| && CellSize(kind, cell) <= |cell|
    && Laid(ShapeOf(kind, cell), cell, pages, chain, payload, |payload|)
  }

  /** Byte `q` is the `o`-th of overflow page `i`. */
  lemma {:induction false} InPage(sh: Shape, cell: seq<Byte>, pages: map<Pgno, seq<Byte>>, chain: seq<Pgno>, q: nat,
                                  i: nat, o: nat)
    requires sh.ovfl > 0 && q == sh.nLocal + i * sh.ovfl + o && o < sh.ovfl && i < |chain| && chain[i] in pages
    ensures ByteAt(sh, cell, pages, chain, q) == At(pages[chain[i]], 4 + o)
  {
    Times(0, i, sh.ovfl);
    DivUnique(q - sh.nLocal, sh.ovfl, i, o);
  }

  /** The page that has byte `q`. */
  lemma {:induction false} PageOf(sh: Shape, chain: seq<Pgno>, q: nat) returns (i: nat, o: nat)
    requires sh.ovfl > 0 && sh.nLocal <= q < sh.nLocal + |chain| * sh.ovfl
    ensures i < |chain| && o < sh.ovfl && q == sh.nLocal + i * sh.ovfl + o
    ensures i == (q - sh.nLocal) / sh.ovfl && o == (q - sh.nLocal) % sh.ovfl
  {
    i, o := (q - sh.nLocal) / sh.ovfl, (q - sh.nLocal) % sh.ovfl;
    assert q - sh.nLocal == i * sh.ovfl + o;
    if i >= |chain| {
      Times(|chain|, i, sh.ovfl);
    }
  }

  lemma {:induction false} LinkFact(pages: map<Pgno, seq<Byte>>, chain: seq<Pgno>, ovfl: nat, i: nat)
    requires Chained(pages, chain, ovfl) && i < |chain|
    ensures chain[i] in pages && |pages[chain[i]]| == ovfl + 4 && chain[i] != 0
            && Num(pages[chain[i]][..4]) == Next(chain, i)
  {
    assert LinkAt(pages, chain, ovfl, i);
  }

  // ------------------------------------------------------------ the checker's formula

  /** The number of overflow pages of a cell is the number the integrity check expects. */
  lemma {:induction false} ChainLength(kind: CellKind, cell: seq<Byte>, pages: map<Pgno, seq<Byte>>, chain: seq<Pgno>,
                                       payload: seq<Byte>)
    requires kind.Valid() && Holds(kind, cell, pages, chain, payload)
    ensures var sz, nLocal := |payload|, ParseCell(kind, cell).nLocal;
            |chain| == if sz > nLocal then (sz - nLocal + kind.usable - 5) / (kind.usable - 4) else 0
  {
    hide ParseCell, ByteAt, Chained;
    var sh := ShapeOf(kind, cell);
    if |payload| > sh.nLocal {
      PagesNeeded(|payload| - sh.nLocal, sh.ovfl, |chain|);
    } else if chain != [] {
      Times(0, |chain| - 1, sh.ovfl);
    }
  }

  /** A cell has one payload. */
  lemma {:induction false} OnePayload(kind: CellKind, cell: seq<Byte>, pages: map<Pgno, seq<Byte>>, c1: seq<Pgno>,
                                      p1: seq<Byte>, c2: seq<Pgno>, p2: seq<Byte>)
    requires kind.Valid() && Holds(kind, cell, pages, c1, p1) && Holds(kind, cell, pages, c2, p2)
    ensures c1 == c2 && p1 == p2
  {
    hide ParseCell, ByteAt;
    ChainLength(kind, cell, pages, c1, p1);
    ChainLength(kind, cell, pages, c2, p2);
    SameChain(ShapeOf(kind, cell), cell, pages, c1, p1, c2, p2, |c1|);
    assert c1[..|c1|] == c1 && c2[..|c1|] == c2;
  }

  lemma {:induction false} SameChain(sh: Shape, cell: seq<Byte>, pages: map<Pgno, seq<Byte>>, c1: seq<Pgno>,
                                     p1: seq<Byte>, c2: seq<Pgno>, p2: seq<Byte>, n: nat)
    requires Laid(sh, cell, pages, c1, p1, |p1|) && Laid(sh, cell, pages, c2, p2, |p2|) && n <= |c1| == |c2|
    ensures c1[..n] == c2[..n]
  {
    hide ByteAt;
    if n > 0 {
      SameChain(sh, cell, pages, c1, p1, c2, p2, n - 1);
      if n > 1 {
        LinkFact(pages, c1, sh.ovfl, n - 2);
        LinkFact(pages, c2, sh.ovfl, n - 2);
        assert c1[..n - 1][n - 2] == c2[..n - 1][n - 2];
      }
      assert c1[..n] == c1[..n - 1] + [c1[n - 1]] && c2[..n] == c2[..n - 1] + [c2[n - 1]];
    }
  }

  /** What is done to other pages does not matter to a cell. */
  lemma {:induction false} OtherPages(kind: CellKind, cell: seq<Byte>, pages: map<Pgno, seq<Byte>>,
                                      pages': map<Pgno, seq<Byte>>, chain: seq<Pgno>, payload: seq<Byte>)
    requires kind.Valid() && Holds(kind, cell, pages, chain, payload)
    requires forall i :: 0 <= i < |chain| ==> chain[i] in pages'
                                              && (chain[i] in pages ==> pages'[chain[i]] == pages[chain[i]])
    ensures Holds(kind, cell, pages', chain, payload)
  {
    hide ParseCell;
    var sh := ShapeOf(kind, cell);
    forall i | 0 <= i < |chain| ensures LinkAt(pages', chain, sh.ovfl, i) {
      LinkFact(pages, chain, sh.ovfl, i);
    }
    forall q | 0 <= q < |payload| ensures ByteAt(sh, cell, pages', chain, q) == payload[q] {
      assert ByteAt(sh, cell, pages, chain, q) == payload[q];
      if q >= sh.nLocal {
        var i, o := PageOf(sh, chain, q);
        LinkFact(pages, chain, sh.ovfl, i);
      }
    }
  }

  // ------------------------------------------------------------ laying bytes down

  /** `b` over the bytes from `at` on. */
  function Over(s: seq<Byte>, at: nat, b: seq<Byte>): (r: seq<Byte>)
    requires at + |b| <= |s|
    ensures |r| == |s| && r[at..at + |b|] == b
    ensures forall x :: 0 <= x < |s| && !(at <= x < at + |b|) ==> r[x] == s[x]
    ensures forall x :: at <= x < at + |b| ==> r[x] == b[x - at]
  {
    s[..at] + b + s[at + |b|..]
  }

  lemma {:induction false} InCell(sh: Shape, cell: seq<Byte>, pages: map<Pgno, seq<Byte>>, chain: seq<Pgno>,
                                  payload: seq<Byte>, p: nat, n: nat)
    requires Laid(sh, cell, pages, chain, payload, p) && chain == [] && p + n <= sh.nLocal && p + n <= |payload|
    ensures Laid(sh, Over(cell, sh.h + p, payload[p..p + n]), pages, chain, payload, p + n)
  {
    hide Over;
    var cell' := Over(cell, sh.h + p, payload[p..p + n]);
    forall q | 0 <= q < p + n ensures ByteAt(sh, cell', pages, chain, q) == payload[q] {
      if q < p {
        assert ByteAt(sh, cell, pages, chain, q) == payload[q];
        assert cell'[sh.h + q] == cell[sh.h + q];
      } else {
        assert cell'[sh.h + q] == payload[p..p + n][q - p];
      }
    }
  }

  lemma {:induction false} InLastPage(sh: Shape, cell: seq<Byte>, pages: map<Pgno, seq<Byte>>, chain: seq<Pgno>,
                                      payload: seq<Byte>, p: nat, n: nat, o: nat)
    requires Laid(sh, cell, pages, chain, payload, p) && chain != [] && p + n <= |payload|
    requires p == sh.nLocal + (|chain| - 1) * sh.ovfl + o && o + n <= sh.ovfl
    requires chain[|chain| - 1] in pages && |pages[chain[|chain| - 1]]| == sh.ovfl + 4
    ensures var last := chain[|chain| - 1];
            Laid(sh, cell, pages[last := Over(pages[last], 4 + o, payload[p..p + n])], chain, payload, p + n)
  {
    hide Over, ByteAt;
    var k := |chain| - 1;
    var last := chain[k];
    var page := Over(pages[last], 4 + o, payload[p..p + n]);
    var pages' := pages[last := page];
    assert page[..4] == pages[last][..4];
    forall i | 0 <= i < |chain| ensures LinkAt(pages', chain, sh.ovfl, i) {
      LinkFact(pages, chain, sh.ovfl, i);
    }
    LessOne(|chain|, sh.ovfl);
    forall q | 0 <= q < p + n ensures ByteAt(sh, cell, pages', chain, q) == payload[q] {
      if q >= p {
        InPage(sh, cell, pages', chain, q, k, o + (q - p));
        assert page[4 + o + (q - p)] == payload[p..p + n][q - p];
      } else {
        assert ByteAt(sh, cell, pages, chain, q) == payload[q];
        EarlierByte(sh, cell, pages, chain, q, k, o, page);
      }
    }
  }

  /** A byte before the end of the last page stays where it is. */
  lemma {:induction false} EarlierByte(sh: Shape, cell: seq<Byte>, pages: map<Pgno, seq<Byte>>, chain: seq<Pgno>,
                                       q: nat, k: nat, o: nat, page: seq<Byte>)
    requires sh.ovfl > 0 && k < |chain| && Chained(pages, chain, sh.ovfl) && o <= sh.ovfl
             && q < sh.nLocal + k * sh.ovfl + o
    requires |page| == sh.ovfl + 4 && chain[k] in pages && |pages[chain[k]]| == sh.ovfl + 4
    requires forall x :: 4 <= x < 4 + o ==> page[x] == pages[chain[k]][x]
    ensures ByteAt(sh, cell, pages[chain[k] := page], chain, q) == ByteAt(sh, cell, pages, chain, q)
  {
    if q >= sh.nLocal {
      Times(k + 1, |chain|, sh.ovfl);
      assert (k + 1) * sh.ovfl == k * sh.ovfl + sh.ovfl;
      var i, r := PageOf(sh, chain, q);
      LinkFact(pages, chain, sh.ovfl, i);
      if i > k {
        Times(k + 1, i, sh.ovfl);
      }
      if i < k {
        assert chain[i] != chain[k];
      }
    }
  }

  /** Another overflow page, with no byte of the payload yet: the one before it, or the cell, leads to it. */
  lemma {:induction false} PageAdded(sh: Shape, cell: seq<Byte>, pages: map<Pgno, seq<Byte>>, chain: seq<Pgno>,
                                     payload: seq<Byte>, p: nat, pgno: Pgno)
    requires Laid(sh, cell, pages, chain, payload, p) && p == sh.nLocal + |chain| * sh.ovfl < |payload|
    requires pgno != 0 && pgno !in chain && pgno in pages && |pages[pgno]| == sh.ovfl + 4 && pgno < TWO32
    requires sh.h + sh.nLocal + 4 <= |cell|
    requires chain != [] ==> chain[|chain| - 1] in pages && |pages[chain[|chain| - 1]]| == sh.ovfl + 4
    ensures var blank := Over(pages[pgno], 0, Four(0));
            if chain == [] then
              Laid(sh, Over(cell, sh.h + sh.nLocal, Four(pgno)), pages[pgno := blank], [pgno], payload, p)
            else
              var last := chain[|chain| - 1];
              Laid(sh, cell, pages[last := Over(pages[last], 0, Four(pgno))][pgno := blank], chain + [pgno], payload, p)
  {
    hide Over, ByteAt, Four, Num;
    NumFour(0);
    NumFour(pgno);
    var blank := Over(pages[pgno], 0, Four(0));
    assert blank[..4] == blank[0..0 + 4] == Four(0);
    if chain == [] {
      var cell', pages' := Over(cell, sh.h + sh.nLocal, Four(pgno)), pages[pgno := blank];
      assert LinkAt(pages', [pgno], sh.ovfl, 0);
      forall q | 0 <= q < p ensures ByteAt(sh, cell', pages', [pgno], q) == payload[q] {
        assert ByteAt(sh, cell, pages, chain, q) == payload[q];
        LocalByte(sh, cell, pages, chain, cell', pages', [pgno], q);
      }
    } else {
      AnotherPage(sh, cell, pages, chain, payload, p, pgno, blank);
    }
  }

  lemma {:induction false} LocalByte(sh: Shape, cell: seq<Byte>, pages: map<Pgno, seq<Byte>>, chain: seq<Pgno>,
                                     cell': seq<Byte>, pages': map<Pgno, seq<Byte>>, chain': seq<Pgno>, q: nat)
    requires sh.ovfl > 0 && q < sh.nLocal && sh.h + sh.nLocal <= |cell| <= |cell'| && cell'[sh.h + q] == cell[sh.h + q]
    ensures ByteAt(sh, cell', pages', chain', q) == ByteAt(sh, cell, pages, chain, q)
  {}

  lemma {:induction false} AnotherPage(sh: Shape, cell: seq<Byte>, pages: map<Pgno, seq<Byte>>, chain: seq<Pgno>,
                                       payload: seq<Byte>, p: nat, pgno: Pgno, blank: seq<Byte>)
    requires Laid(sh, cell, pages, chain, payload, p) && chain != [] && p == sh.nLocal + |chain| * sh.ovfl < |payload|
    requires pgno != 0 && pgno !in chain && pgno in pages && pgno < TWO32
    requires chain[|chain| - 1] in pages && |pages[chain[|chain| - 1]]| == sh.ovfl + 4
    requires |blank| == sh.ovfl + 4 && Num(blank[..4]) == 0
    ensures var last := chain[|chain| - 1];
            Laid(sh, cell, pages[last := Over(pages[last], 0, Four(pgno))][pgno := blank], chain + [pgno], payload, p)
  {
    hide Over, ByteAt, Four, Num;
    NumFour(pgno);
    var k, more := |chain| - 1, chain + [pgno];
    var last := chain[k];
    var page := Over(pages[last], 0, Four(pgno));
    assert page[..4] == page[0..0 + 4] == Four(pgno);
    var pages1 := pages[last := page];
    var pages' := pages1[pgno := blank];
    forall i | 0 <= i < |more| ensures LinkAt(pages', more, sh.ovfl, i) {
      if i <= k {
        LinkFact(pages, chain, sh.ovfl, i);
        assert more[i] == chain[i];
      }
    }
    LessOne(|chain|, sh.ovfl);
    forall q | 0 <= q < p ensures ByteAt(sh, cell, pages', more, q) == payload[q] {
      assert ByteAt(sh, cell, pages, chain, q) == payload[q];
      EarlierByte(sh, cell, pages, chain, q, k, sh.ovfl, page);
      LongerChain(sh, cell, pages1, chain, pgno, blank, q);
    }
  }

  lemma {:induction false} LongerChain(sh: Shape, cell: seq<Byte>, pages: map<Pgno, seq<Byte>>, chain: seq<Pgno>,
                                       pgno: Pgno, blank: seq<Byte>, q: nat)
    requires sh.ovfl > 0 && pgno !in chain && q < sh.nLocal + |chain| * sh.ovfl
    ensures ByteAt(sh, cell, pages[pgno := blank], chain + [pgno], q) == ByteAt(sh, cell, pages, chain, q)
  {
    if q >= sh.nLocal {
      var i, o := PageOf(sh, chain, q);
    }
  }
}
