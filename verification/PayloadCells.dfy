/** Building a cell with its overflow pages, reading any window of its payload back, and giving the pages up. */
module PayloadCells {
  import opened Arithmetic
  import opened Basics
  import opened BtreeCell
  import opened Payload

  datatype Rc = Ok | Error | Corrupt

  /** The bytes before the payload: data size, if there is data, and key (or key size). */
  ghost function Header(kind: CellKind, nKey: nat, nData: nat): seq<Byte>
    requires nKey < TWO64 && nData < TWO32
  {
    (if kind.hasData then PutVarint(nData) else []) + PutVarint(nKey)
  }

  /** parseCellPtr reads the header that was written, whatever follows it. */
  lemma {:induction false} HeaderRead(kind: CellKind, s: seq<Byte>, nKey: nat, nData: nat)
    requires kind.Valid() && nKey < TWO64 && (!kind.intKey ==> nKey < TWO32) && nData < TWO32
    requires var c, h := kind.ChildPtrSize(), Header(kind, nKey, nData); c + |h| <= |s| && s[c..c + |h|] == h
    ensures |Header(kind, nKey, nData)| <= 18
    ensures ParseCell(kind, s) == CellInfoOf(kind, kind.ChildPtrSize() + |Header(kind, nKey, nData)|, nKey,
                                             if kind.hasData then nData else 0)
  {
    hide PutVarint, GetVarint, GetVarint32, LocalSize, CellInfoOf;
    var c, h := kind.ChildPtrSize(), Header(kind, nKey, nData);
    var a, b := (if kind.hasData then PutVarint(nData) else []), PutVarint(nKey);
    assert s[c + |a|..c + |h|] == h[|a|..] == b;
    VarintRoundTrip(s, c + |a|, nKey);
    if kind.hasData {
      assert s[c..c + |a|] == h[..|a|] == a;
      VarintRoundTrip(s, c, nData);
    }
  }

  /** The payload a cell of this kind has: the data if any, after the key unless the key is in the header. */
  ghost function PayloadOf(kind: CellKind, key: seq<Byte>, data: seq<Byte>): seq<Byte> {
    (if kind.intKey then [] else key) + (if kind.hasData then data else [])
  }

  /** memcpy into a buffer. */
  method Write(a: array<Byte>, at: nat, b: seq<Byte>)
    requires at + |b| <= a.Length
    modifies a
    ensures a[..] == Over(old(a[..]), at, b)
  {
    hide Over;
    ghost var was := a[..];
    for i := 0 to |b|
      invariant forall x :: 0 <= x < a.Length ==> a[x] == if at <= x < at + i then b[x - at] else was[x]
    {
      a[at + i] := b[i];
    }
  }

  /** Where the next byte goes, and how much room there is. */
  ghost predicate Place(sh: Shape, chain: seq<Pgno>, p: nat, cur: Pgno, pos: nat, spaceLeft: int) {
    && cur == (if chain == [] then 0 else chain[|chain| - 1])
    && pos == (if chain == [] then sh.h + p else 4 + p - sh.nLocal - (|chain| - 1) * sh.ovfl)
    && spaceLeft == sh.nLocal + |chain| * sh.ovfl - p
  }

  /** The source bytes still to be copied: the rest of the key and then the data, or the rest of the data. */
  ghost predicate Source(payload: seq<Byte>, p: nat, src: seq<Byte>, data: seq<Byte>, inKey: bool)
    requires p <= |payload|
  {
    if inKey then payload[p..] == src + data else p < |payload| ==> payload[p..] == src
  }

  /** `chain` was taken off the front of the supply. */
  ghost predicate Drawn(before: seq<Pgno>, chain: seq<Pgno>, after: seq<Pgno>) {
    before == chain + after
  }

  lemma {:induction false} DrawOne(before: seq<Pgno>, chain: seq<Pgno>, after: seq<Pgno>)
    requires Drawn(before, chain, after) && after != []
    ensures Drawn(before, chain + [after[0]], after[1..])
  {}

  /** The pointer map with an entry for every page of the chain but the first. */
  ghost function Entries(m: map<Pgno, Pgno>, chain: seq<Pgno>): map<Pgno, Pgno> {
    var k := |chain| - 1;
    if k <= 0 then m else Entries(m, chain[..k])[chain[k] := chain[k - 1]]
  }

  lemma {:induction false} NoEntries(m: map<Pgno, Pgno>)
    ensures Entries(m, []) == m
  {}

  lemma {:induction false} OneEntry(m: map<Pgno, Pgno>, chain: seq<Pgno>, x: Pgno)
    ensures Entries(m, chain + [x]) == if chain == [] then Entries(m, chain)
                                       else Entries(m, chain)[x := chain[|chain| - 1]]
  {
    assert (chain + [x])[..|chain|] == chain;
  }

  /** In an auto-vacuum database every later page of the chain leads back to the one before; other entries are as
      they were. */
  lemma {:induction false} EntriesLeadBack(m: map<Pgno, Pgno>, chain: seq<Pgno>)
    requires Distinct(chain)
    ensures forall i :: 0 < i < |chain| ==> chain[i] in Entries(m, chain) && Entries(m, chain)[chain[i]] == chain[i - 1]
    ensures forall x :: x !in chain || x == chain[0]
                        ==> (x in m <==> x in Entries(m, chain)) && (x in m ==> Entries(m, chain)[x] == m[x])
  {
    var k := |chain| - 1;
    if k > 0 {
      var front := chain[..k];
      EntriesLeadBack(m, front);
      forall x | x !in chain || x == chain[0] ensures (x in m <==> x in Entries(m, chain))
          && (x in m ==> Entries(m, chain)[x] == m[x]) {
        assert x != chain[k] && (x !in front || x == front[0]);
      }
      forall i | 0 < i < |chain| ensures chain[i] in Entries(m, chain) && Entries(m, chain)[chain[i]] == chain[i - 1] {
        if i < k {
          assert front[i] == chain[i] && front[i - 1] == chain[i - 1];
        }
      }
    }
  }

  lemma {:induction false} DrawnApart(before: seq<Pgno>, chain: seq<Pgno>, after: seq<Pgno>)
    requires Drawn(before, chain, after) && Distinct(before)
    ensures Distinct(chain) && forall x :: x in chain ==> x !in after
  {
    forall i, j | 0 <= i < |chain| && 0 <= j < |after| ensures chain[i] != after[j] {
      assert before[i] == chain[i] && before[|chain| + j] == after[j];
    }
    forall i, j | 0 <= i < j < |chain| ensures chain[i] != chain[j] {
      assert before[i] == chain[i] && before[j] == chain[j];
    }
  }

  class Store {
    const usable: nat
    var pages: map<Pgno, seq<Byte>>
    /** The pages allocatePage hands out from now on; then it fails. */
    var supply: seq<Pgno>
    /** Pointer-map entries of overflow pages that are not the first: the page before. */
    var ptrmap: map<Pgno, Pgno>

    ghost predicate Valid()
      reads this
    {
      && usable > 4 && Distinct(supply)
      && (forall i :: 0 <= i < |supply| ==> supply[i] in pages && 0 < supply[i] < TWO32)
      && (forall x :: x in pages ==> |pages[x]| == usable)
    }

    method AllocatePage() returns (ok: bool, pgno: Pgno)
      requires Valid()
      modifies this`supply
      ensures ok == (old(supply) != [])
      ensures ok ==> pgno == old(supply)[0] && supply == old(supply)[1..] && Valid()
      ensures !ok ==> unchanged(this)
    {
      ok, pgno := |supply| > 0, 0;
      if ok {
        pgno := supply[0];
        supply := supply[1..];
      }
    }

    /** Go on to another overflow page. */
    method NewPage(sh: Shape, pCell: array<Byte>, iOverflow: nat, cur: Pgno, autoVacuum: bool, ghost chain: seq<Pgno>,
                   ghost payload: seq<Byte>, ghost p: nat)
      returns (ok: bool, pgno: Pgno, pos: nat, spaceLeft: nat)
      requires Valid() && usable == sh.ovfl + 4 && Laid(sh, pCell[..], pages, chain, payload, p) && p < |payload|
      requires exists pos :: Place(sh, chain, p, cur, pos, 0)
      requires iOverflow == sh.h + sh.nLocal && iOverflow + 4 <= pCell.Length
      requires forall x :: x in chain ==> x !in supply
      modifies this`pages, this`supply, this`ptrmap, pCell
      ensures ok == (old(supply) != []) && Valid() && pages.Keys == old(pages.Keys)
              && pCell[..sh.h] == old(pCell[..sh.h])
      ensures forall x :: x in old(pages) && x !in chain && !(ok && x == pgno) ==> pages[x] == old(pages)[x]
      ensures ok ==> && pgno == old(supply)[0] && supply == old(supply)[1..]
                     && Laid(sh, pCell[..], pages, chain + [pgno], payload, p)
                     && Place(sh, chain + [pgno], p, pgno, pos, spaceLeft)
      ensures !ok ==> unchanged(this) && unchanged(pCell)
      ensures ok ==> ptrmap == if autoVacuum && chain != [] then old(ptrmap)[pgno := chain[|chain| - 1]]
                               else old(ptrmap)
    {
      hide Laid, Over, Four, Num;
      pos, spaceLeft := 4, sh.ovfl;
      ok, pgno := AllocatePage();
      if ok {
        LastOf(sh, pCell[..], pages, chain, payload, p);
        PageAdded(sh, pCell[..], pages, chain, payload, p, pgno);
        PlaceAfter(sh, chain, p, pgno);
        if autoVacuum && cur != 0 {
          ptrmap := ptrmap[pgno := cur];
        }
        LinkTo(sh, pCell, iOverflow, cur, pgno);
        if chain == [] {
          assert chain + [pgno] == [pgno];
        }
      }
    }

    /** Write the number of the new page where the chain ends, and end it there. */
    method LinkTo(sh: Shape, pCell: array<Byte>, at: nat, cur: Pgno, pgno: Pgno)
      requires Valid() && sh.h <= at && at + 4 <= pCell.Length && pgno in pages && 0 < pgno < TWO32
               && (cur != 0 ==> cur in pages) && cur != pgno
      modifies this`pages, pCell
      ensures Valid() && pages.Keys == old(pages.Keys) && pCell[..sh.h] == old(pCell[..sh.h])
      ensures forall x :: x in old(pages) && x != cur && x != pgno ==> pages[x] == old(pages)[x]
      ensures pCell[..] == if cur == 0 then Over(old(pCell[..]), at, Four(pgno)) else old(pCell[..])
      ensures var linked := if cur == 0 then old(pages) else old(pages)[cur := Over(old(pages)[cur], 0, Four(pgno))];
              pages == linked[pgno := Over(old(pages)[pgno], 0, Four(0))]
    {
      hide Over, Four, Num;
      ghost var blank := Over(pages[pgno], 0, Four(0));
      if cur == 0 {
        Write(pCell, at, Four(pgno));
      } else {
        pages := pages[cur := Over(pages[cur], 0, Four(pgno))];
      }
      pages := pages[pgno := Over(pages[pgno], 0, Four(0))];
    }

    /** Copy `n` bytes to where the payload goes on. */
    method CopyBytes(sh: Shape, pCell: array<Byte>, cur: Pgno, pos: nat, bytes: seq<Byte>, ghost chain: seq<Pgno>,
                     ghost payload: seq<Byte>, ghost p: nat, ghost spaceLeft: nat)
      requires Valid() && usable == sh.ovfl + 4 && Laid(sh, pCell[..], pages, chain, payload, p)
               && Place(sh, chain, p, cur, pos, spaceLeft)
      requires |bytes| <= spaceLeft && p + |bytes| <= |payload| && bytes == payload[p..p + |bytes|]
      modifies this`pages, pCell
      ensures Valid() && pages.Keys == old(pages.Keys) && pCell[..sh.h] == old(pCell[..sh.h])
      ensures forall x :: x in old(pages) && x !in chain ==> pages[x] == old(pages)[x]
      ensures Laid(sh, pCell[..], pages, chain, payload, p + |bytes|)
      ensures Place(sh, chain, p + |bytes|, cur, pos + |bytes|, spaceLeft - |bytes|)
    {
      hide Laid, Over;
      LastOf(sh, pCell[..], pages, chain, payload, p);
      if chain == [] {
        InCell(sh, pCell[..], pages, chain, payload, p, |bytes|);
      } else {
        LessOne(|chain|, sh.ovfl);
        InLastPage(sh, pCell[..], pages, chain, payload, p, |bytes|, pos - 4);
      }
      if cur == 0 {
        Write(pCell, pos, bytes);
      } else {
        pages := pages[cur := Over(pages[cur], pos, bytes)];
      }
    }

    /** Another page if there is no room. */
    method MakeRoom(sh: Shape, pCell: array<Byte>, iOverflow: nat, autoVacuum: bool, cur0: Pgno, pos0: nat,
                    spaceLeft0: nat, ghost chain0: seq<Pgno>, ghost payload: seq<Byte>, ghost p: nat)
      returns (ok: bool, cur: Pgno, pos: nat, spaceLeft: nat, ghost chain: seq<Pgno>, ghost grew: bool)
      requires Valid() && usable == sh.ovfl + 4 && Laid(sh, pCell[..], pages, chain0, payload, p)
               && Place(sh, chain0, p, cur0, pos0, spaceLeft0)
      requires p < |payload| && (|payload| > sh.nLocal
                                 ==> iOverflow == sh.h + sh.nLocal && iOverflow + 4 <= pCell.Length)
      requires forall x :: x in chain0 ==> x !in supply
      modifies this`pages, this`supply, this`ptrmap, pCell
      ensures Valid() && pages.Keys == old(pages.Keys) && pCell[..sh.h] == old(pCell[..sh.h])
      ensures grew ==> old(supply) != [] && chain == chain0 + [old(supply)[0]] && supply == old(supply)[1..]
      ensures !grew ==> chain == chain0 && unchanged(this) && unchanged(pCell)
      ensures forall x :: x in old(pages) && x !in chain ==> pages[x] == old(pages)[x]
      ensures ptrmap == if autoVacuum && grew && chain0 != [] then old(ptrmap)[chain[|chain0|] := chain0[|chain0| - 1]]
                        else old(ptrmap)
      ensures ok ==> Laid(sh, pCell[..], pages, chain, payload, p) && Place(sh, chain, p, cur, pos, spaceLeft)
                     && spaceLeft > 0
      ensures !ok ==> old(supply) == [] && p == sh.nLocal + |chain0| * sh.ovfl && !grew
    {
      hide Laid;
      ok, cur, pos, spaceLeft, chain, grew := true, cur0, pos0, spaceLeft0, chain0, false;
      if spaceLeft == 0 {
        LastOf(sh, pCell[..], pages, chain0, payload, p);
        assert Place(sh, chain0, p, cur0, pos0, 0);
        ok, cur, pos, spaceLeft := NewPage(sh, pCell, iOverflow, cur, autoVacuum, chain, payload, p);
        if ok {
          chain, grew := chain0 + [cur], true;
          assert (|chain0| + 1) * sh.ovfl == |chain0| * sh.ovfl + sh.ovfl;
        }
      }
    }

    /** One turn of the copying loop: another page if there is no room, then as many bytes as fit. */
    method FillStep(sh: Shape, pCell: array<Byte>, iOverflow: nat, autoVacuum: bool, data: seq<Byte>, cur0: Pgno,
                    pos0: nat, spaceLeft0: nat, nPayload: nat, src0: seq<Byte>, ghost inKey0: bool,
                    ghost chain0: seq<Pgno>, ghost payload: seq<Byte>, ghost p: nat)
      returns (ok: bool, cur: Pgno, pos: nat, spaceLeft: nat, src: seq<Byte>, n: nat, ghost inKey: bool,
               ghost chain: seq<Pgno>, ghost grew: bool)
      requires Valid() && usable == sh.ovfl + 4 && Laid(sh, pCell[..], pages, chain0, payload, p)
               && Place(sh, chain0, p, cur0, pos0, spaceLeft0)
      requires nPayload > 0 && p + nPayload == |payload| && Source(payload, p, src0, data, inKey0)
      requires |payload| > sh.nLocal ==> iOverflow == sh.h + sh.nLocal && iOverflow + 4 <= pCell.Length
      requires forall x :: x in chain0 ==> x !in supply
      modifies this`pages, this`supply, this`ptrmap, pCell
      ensures Valid() && pages.Keys == old(pages.Keys) && pCell[..sh.h] == old(pCell[..sh.h])
      ensures grew ==> old(supply) != [] && chain == chain0 + [old(supply)[0]] && supply == old(supply)[1..]
      ensures !grew ==> chain == chain0 && supply == old(supply)
      ensures forall x :: x in old(pages) && x !in chain ==> pages[x] == old(pages)[x]
      ensures ptrmap == if autoVacuum && grew && chain0 != [] then old(ptrmap)[chain[|chain0|] := chain0[|chain0| - 1]]
                        else old(ptrmap)
      ensures ok ==> p + n <= |payload| && Laid(sh, pCell[..], pages, chain, payload, p + n)
                     && Place(sh, chain, p + n, cur, pos, spaceLeft)
      ensures ok ==> Source(payload, p + n, src, data, inKey) && (n > 0 || (inKey0 && !inKey))
      ensures !ok ==> old(supply) == [] && p == sh.nLocal + |chain0| * sh.ovfl && !grew
    {
      hide Laid, Place, Source;
      src, n, inKey := src0, 0, inKey0;
      ok, cur, pos, spaceLeft, chain, grew := MakeRoom(sh, pCell, iOverflow, autoVacuum, cur0, pos0, spaceLeft0, chain0,
                                                       payload, p);
      if ok {
        n := nPayload;
        if n > spaceLeft {
          n := spaceLeft;
        }
        if n > |src| {
          n := |src|;
        }
        SourceNow(payload, p, src, data, inKey, n);
        CopyBytes(sh, pCell, cur, pos, src[..n], chain, payload, p, spaceLeft);
        pos, spaceLeft, src := pos + n, spaceLeft - n, src[n..];
        inKey := inKey && |src| > 0;
        if |src| == 0 {
          src := data;
        }
      }
    }

    /** The copying loop. It fails only when there are too few pages. */
    method FillPayload(sh: Shape, pCell: array<Byte>, iOverflow: nat, autoVacuum: bool, src0: seq<Byte>,
                       data: seq<Byte>, nPayload0: nat, ghost inKey0: bool, ghost payload: seq<Byte>)
      returns (ok: bool, ghost chain: seq<Pgno>)
      requires Valid() && usable == sh.ovfl + 4 && Laid(sh, pCell[..], pages, [], payload, 0)
      requires nPayload0 == |payload| && Source(payload, 0, src0, data, inKey0)
      requires |payload| > sh.nLocal ==> iOverflow == sh.h + sh.nLocal && iOverflow + 4 <= pCell.Length
      modifies this`pages, this`supply, this`ptrmap, pCell
      ensures Valid() && pages.Keys == old(pages.Keys) && pCell[..sh.h] == old(pCell[..sh.h])
      ensures Drawn(old(supply), chain, supply)
      ensures forall x :: x in old(pages) && x !in chain ==> pages[x] == old(pages)[x]
      ensures ptrmap == if autoVacuum then Entries(old(ptrmap), chain) else old(ptrmap)
      ensures ok ==> Laid(sh, pCell[..], pages, chain, payload, |payload|)
      ensures ok == (|payload| <= sh.nLocal + |old(supply)| * sh.ovfl)
    {
      hide Laid, Place, Source, Entries;
      chain, ok := [], true;
      var cur, pos, spaceLeft, src, nPayload := 0, sh.h, sh.nLocal, src0, nPayload0;
      ghost var p, inKey, n := 0, inKey0, 0;
      AtStart(sh);
      LastOf(sh, pCell[..], pages, [], payload, 0);
      NoEntries(ptrmap);
      while nPayload > 0 && ok
        invariant p + nPayload == |payload|
        invariant Valid() && pages.Keys == old(pages.Keys) && pCell[..sh.h] == old(pCell[..sh.h])
        invariant ok ==> Laid(sh, pCell[..], pages, chain, payload, p) && Place(sh, chain, p, cur, pos, spaceLeft)
                         && Source(payload, p, src, data, inKey)
        invariant Drawn(old(supply), chain, supply)
        invariant forall x :: x in old(pages) && x !in chain ==> pages[x] == old(pages)[x]
        invariant ptrmap == if autoVacuum then Entries(old(ptrmap), chain) else old(ptrmap)
        invariant !ok ==> supply == [] && p == sh.nLocal + |chain| * sh.ovfl < |payload|
        decreases ok, nPayload, inKey
      {
        ghost var chain0, left := chain, supply;
        DrawnApart(old(supply), chain, supply);
        var m;
        ghost var grew;
        ok, cur, pos, spaceLeft, src, m, inKey, chain, grew :=
          FillStep(sh, pCell, iOverflow, autoVacuum, data, cur, pos, spaceLeft, nPayload, src, inKey, chain, payload,
                   p);
        if grew {
          DrawOne(old(supply), chain0, left);
          OneEntry(old(ptrmap), chain0, left[0]);
        }
        if ok {
          p, nPayload := p + m, nPayload - m;
        }
      }
      Enough(sh, pCell[..], pages, chain, payload, old(supply), supply, ok);
    }

    /** fillInCell: header and payload into the buffer, the rest of the payload into pages taken from the supply. */
    method FillInCell(kind: CellKind, pCell: array<Byte>, key: seq<Byte>, nKey: nat, data0: seq<Byte>, autoVacuum: bool)
      returns (ok: bool, nSize: nat, ghost chain: seq<Pgno>)
      requires Valid() && kind.Valid() && kind.usable == usable
      requires if kind.intKey then nKey < TWO64 else nKey == |key|
      requires |key| + |data0| < 0x8000_0000 && kind.ChildPtrSize() + 18 + kind.maxLocal + 4 <= pCell.Length
      modifies this`pages, this`supply, this`ptrmap, pCell
      ensures Valid() && pages.Keys == old(pages.Keys) && Drawn(old(supply), chain, supply)
      ensures forall x :: x in old(pages) && x !in chain ==> pages[x] == old(pages)[x]
      ensures ptrmap == if autoVacuum then Entries(old(ptrmap), chain) else old(ptrmap)
      ensures pCell[..kind.ChildPtrSize()] == old(pCell[..kind.ChildPtrSize()])
      ensures ok ==> nSize <= pCell.Length && CellSize(kind, pCell[..nSize]) == nSize
      ensures ok ==> Holds(kind, pCell[..nSize], pages, chain, PayloadOf(kind, key, data0))
      ensures ok ==> var info := ParseCell(kind, pCell[..nSize]);
                     info.nKey == nKey && info.nData == (if kind.hasData then |data0| else 0)
      ensures var payload := PayloadOf(kind, key, data0);
              ok == (PagesFor(|payload| - LocalSize(kind, |payload|), usable - 4) <= |old(supply)|)
    {
      hide LocalSize, Laid, Place, Over, Entries, ParseCell, Drawn, PagesFor, Distinct, Header, CellInfoOf;
      var nHeader, info := PutHeader(kind, pCell, nKey, |data0|);
      ghost var head, nData := Header(kind, nKey, |data0|), if kind.hasData then |data0| else 0;
      ghost var payload := PayloadOf(kind, key, data0);
      var data := if kind.hasData then data0 else [];
      var nPayload, src := |data|, data;
      if kind.intKey {
        data := [];
      } else {
        nPayload := nPayload + nKey;
        src := key;
      }
      InfoFacts(kind, nHeader, nKey, nData, nPayload);
      nSize := info.nSize;
      var sh := Shape(nHeader, info.nLocal, usable - 4);
      NothingLaid(sh, pCell[..], pages, payload);
      AllToCopy(payload, src, data, !kind.intKey);
      ghost var was := pCell[..nHeader];
      ok, chain := FillPayload(sh, pCell, info.iOverflow, autoVacuum, src, data, nPayload, !kind.intKey, payload);
      PagesSuffice(nPayload - info.nLocal, usable - 4, |old(supply)|);
      SameHead(was, pCell[..], kind.ChildPtrSize(), head);
      if ok {
        Finished(kind, pCell[..], nKey, |data0|, pages, chain, payload);
      }
    }

    /** getPayload: a window of the payload, or of the part after the key. */
    method GetPayload(kind: CellKind, cell: seq<Byte>, offset0: nat, amt0: nat, skipKey: bool, pBuf: array<Byte>,
                      ghost chain: seq<Pgno>, ghost payload: seq<Byte>)
      returns (rc: Rc)
      requires Valid() && kind.Valid() && kind.usable == usable && Holds(kind, cell, pages, chain, payload)
               && amt0 <= pBuf.Length
      modifies pBuf
      ensures var offset := offset0 + if skipKey && !kind.intKey then ParseCell(kind, cell).nKey else 0;
              if offset + amt0 > |payload| then rc == Error && unchanged(pBuf)
              else rc == Ok && pBuf[..amt0] == payload[offset..offset + amt0] && pBuf[amt0..] == old(pBuf[amt0..])
    {
      hide ParseCell, Laid, Over;
      var info := ParseCell(kind, cell);
      InfoTotal(kind, cell);
      var nKey := if kind.intKey then 0 else info.nKey;
      var offset, amt := offset0, amt0;
      if skipKey {
        offset := offset + nKey;
      }
      if offset + amt > (nKey + info.nData) % TWO32 {
        return Error;
      }
      ghost var sh, off := ShapeOf(kind, cell), offset;
      LastOf(sh, cell, pages, chain, payload, |payload|);
      var d := 0;
      if offset < info.nLocal {
        var a := ReadLocal(info.nHeader, info.nLocal, offset, amt, cell, pBuf, sh, chain, payload);
        if a == amt {
          return Ok;
        }
        offset, d, amt := 0, a, amt - a;
      } else {
        offset := offset - info.nLocal;
      }
      if amt > 0 {
        FirstPage(sh, cell, pages, chain, payload);
        var nextPage := Num(cell[info.nHeader + info.nLocal..info.nHeader + info.nLocal + 4]);
        amt := ReadChain(kind.usable - 4, nextPage, offset, amt, d, pBuf, sh, cell, chain, payload, off);
      }
      rc := if amt > 0 then Corrupt else Ok;
    }

    /** The bytes that are in the cell. */
    method ReadLocal(nHeader: nat, nLocal: nat, offset: nat, amt: nat, cell: seq<Byte>, pBuf: array<Byte>,
                     ghost sh: Shape, ghost chain: seq<Pgno>, ghost payload: seq<Byte>)
      returns (a: nat)
      requires Laid(sh, cell, pages, chain, payload, |payload|) && nHeader == sh.h && nLocal == sh.nLocal <= |payload|
      requires offset < nLocal && offset + amt <= |payload| && amt <= pBuf.Length
      modifies pBuf
      ensures a <= amt && (a < amt ==> offset + a == nLocal) && pBuf[..a] == payload[offset..offset + a]
              && pBuf[amt..] == old(pBuf[amt..])
    {
      hide Laid, Over;
      LastOf(sh, cell, pages, chain, payload, |payload|);
      a := amt;
      if a + offset > nLocal {
        a := nLocal - offset;
      }
      LocalChunk(sh, cell, pages, chain, payload, offset, a);
      Write(pBuf, 0, cell[nHeader + offset..nHeader + offset + a]);
      assert pBuf[..a] == pBuf[0..0 + a];
    }

    /** The bytes that are in overflow pages. */
    method ReadChain(ovflSize: nat, first: Pgno, offset0: nat, amt0: nat, d0: nat, pBuf: array<Byte>, ghost sh: Shape,
                     ghost cell: seq<Byte>, ghost chain: seq<Pgno>, ghost payload: seq<Byte>, ghost off: nat)
      returns (amt: nat)
      requires Valid() && usable == sh.ovfl + 4 && ovflSize == sh.ovfl
               && Laid(sh, cell, pages, chain, payload, |payload|)
      requires first == Next(chain, -1) && d0 + amt0 <= pBuf.Length && off + d0 + amt0 <= |payload|
      requires off + d0 == sh.nLocal + offset0 && pBuf[..d0] == payload[off..off + d0]
      modifies pBuf
      ensures amt == 0 && pBuf[..d0 + amt0] == payload[off..off + d0 + amt0]
              && pBuf[d0 + amt0..] == old(pBuf[d0 + amt0..])
    {
      hide Laid, Over, Num;
      var nextPage: Pgno, offset: nat, d: nat := first, offset0, d0;
      amt := amt0;
      ghost var k := 0;
      while amt > 0 && nextPage != 0
        invariant d + amt == d0 + amt0 && nextPage == Next(chain, k - 1) && pBuf[..d] == payload[off..off + d]
        invariant pBuf[d0 + amt0..] == old(pBuf[d0 + amt0..])
        invariant amt > 0 ==> off + d == sh.nLocal + k * sh.ovfl + offset
        decreases amt + offset
      {
        PageLeft(sh, cell, pages, chain, payload, off + d, k);
        LinkOf(sh, cell, pages, chain, payload, k);
        var aPayload := pages[nextPage];
        nextPage := Num(aPayload[..4]);
        assert (k + 1) * sh.ovfl == k * sh.ovfl + sh.ovfl;
        if offset < ovflSize {
          var a := amt;
          if a + offset > ovflSize {
            a := ovflSize - offset;
          }
          PageChunk(sh, cell, pages, chain, payload, off + d, k, offset, a);
          ghost var was := pBuf[..];
          Write(pBuf, d, aPayload[offset + 4..offset + 4 + a]);
          Grown(was, pBuf[..], payload, off, d, a);
          offset, amt, d := 0, amt - a, d + a;
        } else {
          offset := offset - ovflSize;
        }
        k := k + 1;
      }
      if amt > 0 {
        PageLeft(sh, cell, pages, chain, payload, off + d, k);
        LinkOf(sh, cell, pages, chain, payload, k);
      }
    }

    /** clearCell: the overflow pages of a cell go back to the supply. */
    method ClearCell(kind: CellKind, cell: seq<Byte>, ghost chain: seq<Pgno>, ghost payload: seq<Byte>) returns (rc: Rc)
      requires Valid() && kind.Valid() && kind.usable == usable && Holds(kind, cell, pages, chain, payload)
      requires forall x :: x in chain ==> x !in supply && x < TWO32
      modifies this`supply
      ensures rc == Ok && Valid() && supply == old(supply) + chain
    {
      hide ParseCell, Laid, Num;
      var info := ParseCell(kind, cell);
      ghost var sh := ShapeOf(kind, cell);
      LastOf(sh, cell, pages, chain, payload, |payload|);
      ChainLength(kind, cell, pages, chain, payload);
      InfoTotal(kind, cell);
      if info.iOverflow == 0 {
        assert chain == [];
        return Ok;
      }
      FirstPage(sh, cell, pages, chain, payload);
      var ovflPgno := Num(cell[info.iOverflow..info.iOverflow + 4]);
      ghost var k := 0;
      while ovflPgno != 0
        invariant k <= |chain| && ovflPgno == Next(chain, k - 1) && Valid() && supply == old(supply) + chain[..k]
        decreases |chain| - k
      {
        LinkOf(sh, cell, pages, chain, payload, k);
        Joined(supply, chain[k]);
        if ovflPgno !in pages {
          return Corrupt;
        }
        var freed := ovflPgno;
        ovflPgno := Num(pages[ovflPgno][..4]);
        supply := supply + [freed];
        k := k + 1;
      }
      if k < |chain| {
        LinkOf(sh, cell, pages, chain, payload, k);
      }
      assert chain[..k] == chain;
      rc := Ok;
    }

    /** The header of a cell. */
    static method PutHeader(kind: CellKind, pCell: array<Byte>, nKey: nat, nData: nat)
      returns (nHeader: nat, info: CellInfo)
      requires kind.Valid() && nKey < TWO64 && (!kind.intKey ==> nKey < TWO32) && nData < TWO32
               && kind.ChildPtrSize() + 18 <= pCell.Length
      modifies pCell
      ensures |Header(kind, nKey, nData)| <= 18 && nHeader == kind.ChildPtrSize() + |Header(kind, nKey, nData)|
      ensures pCell[kind.ChildPtrSize()..nHeader] == Header(kind, nKey, nData)
              && pCell[..kind.ChildPtrSize()] == old(pCell[..kind.ChildPtrSize()])
      ensures info == ParseCell(kind, pCell[..]) == CellInfoOf(kind, nHeader, nKey, if kind.hasData then nData else 0)
    {
      hide PutVarint, ParseCell, CellInfoOf, Over;
      nHeader := 0;
      if !kind.leaf {
        nHeader := nHeader + 4;
      }
      VarintLength(nKey);
      ghost var size: seq<Byte> := [];
      ghost var s0 := pCell[..];
      if kind.hasData {
        var bytes := PutVarint(nData);
        size := bytes;
        VarintLength(nData);
        Write(pCell, nHeader, bytes);
        nHeader := nHeader + |bytes|;
      } else {
        NothingOver(s0, nHeader);
      }
      ghost var s1 := pCell[..];
      var bytes := PutVarint(nKey);
      Write(pCell, nHeader, bytes);
      nHeader := nHeader + |bytes|;
      TwoWritten(s0, s1, pCell[..], kind.ChildPtrSize(), size, bytes);
      HeaderRead(kind, pCell[..], nKey, nData);
      info := ParseCell(kind, pCell[..]);
    }
  }

  lemma {:induction false} NothingOver(s: seq<Byte>, at: nat)
    requires at <= |s|
    ensures Over(s, at, []) == s
  {}

  lemma {:induction false} TwoWritten(s0: seq<Byte>, s1: seq<Byte>, s2: seq<Byte>, c: nat, a: seq<Byte>, b: seq<Byte>)
    requires c + |a| + |b| <= |s0| && s1 == Over(s0, c, a) && s2 == Over(s1, c + |a|, b)
    ensures |s2| == |s0| && s2[..c] == s0[..c] && s2[c..c + |a + b|] == a + b
  {
    assert s1[c..c + |a|] == a;
    assert s2[c..c + |a|] == s1[c..c + |a|];
    assert s2[c + |a|..c + |a| + |b|] == b;
    assert s2[c..c + |a + b|] == s2[c..c + |a|] + s2[c + |a|..c + |a| + |b|];
  }

  lemma {:induction false} VarintLength(v: nat)
    requires v < TWO64
    ensures 1 <= |PutVarint(v)| <= 9
  {
    VarintRoundTrip(PutVarint(v), 0, v);
  }

  /** What the header says of the payload and the size of the cell. */
  lemma {:induction false} InfoFacts(kind: CellKind, nHeader: nat, nKey: nat, nData: nat, nPayload: nat)
    requires kind.Valid() && nPayload == (if kind.intKey then nData else nData + nKey) < TWO32
    ensures var info := CellInfoOf(kind, nHeader, nKey, nData);
            && info.nKey == nKey && info.nData == nData && info.nHeader == nHeader && info.nPayload == nPayload
            && info.nLocal == LocalSize(kind, nPayload) <= nPayload && info.nLocal <= kind.maxLocal
            && nHeader + info.nLocal <= info.nSize <= Max(4, nHeader + kind.maxLocal + 4)
            && (nPayload > info.nLocal ==> info.iOverflow == nHeader + info.nLocal && info.nSize == info.iOverflow + 4)
  {
    LocalFits(kind, nPayload);
  }

  lemma {:induction false} LocalFits(kind: CellKind, nPayload: nat)
    requires kind.Valid()
    ensures LocalSize(kind, nPayload) <= nPayload && LocalSize(kind, nPayload) <= kind.maxLocal
    ensures nPayload <= kind.maxLocal <==> LocalSize(kind, nPayload) == nPayload
  {
    if nPayload > kind.maxLocal {
      var x, m := nPayload - kind.minLocal, kind.usable - 4;
      assert x == x / m * m + x % m;
      Times(0, x / m, m);
    }
  }

  lemma {:induction false} NothingLaid(sh: Shape, cell: seq<Byte>, pages: map<Pgno, seq<Byte>>, payload: seq<Byte>)
    requires sh.ovfl > 0 && sh.h + sh.nLocal <= |cell|
    ensures Laid(sh, cell, pages, [], payload, 0)
  {}

  lemma {:induction false} AllToCopy(payload: seq<Byte>, src: seq<Byte>, data: seq<Byte>, inKey: bool)
    requires payload == if inKey then src + data else src
    ensures Source(payload, 0, src, data, inKey)
  {
    assert payload[0..] == payload;
  }

  lemma {:induction false} PagesSuffice(rest: nat, ovfl: nat, n: nat)
    requires ovfl > 0
    ensures PagesFor(rest, ovfl) <= n <==> rest <= n * ovfl
  {
    var k := PagesFor(rest, ovfl);
    PagesNeeded(rest, ovfl, k);
    if k <= n {
      Times(k, n, ovfl);
    } else {
      Times(n, k - 1, ovfl);
    }
  }

  lemma {:induction false} SameHead(was: seq<Byte>, now: seq<Byte>, c: nat, head: seq<Byte>)
    requires c + |head| == |was| <= |now| && now[..|was|] == was && was[c..] == head
    ensures now[..c] == was[..c] && now[c..c + |head|] == head
  {
    assert now[..c] == now[..|was|][..c];
    assert now[c..c + |head|] == now[..|was|][c..];
  }

  /** With header and payload written, the cell is complete; bytes after it do not matter. */
  lemma {:induction false} Finished(kind: CellKind, s: seq<Byte>, nKey: nat, nData0: nat, pages: map<Pgno, seq<Byte>>,
                                    chain: seq<Pgno>, payload: seq<Byte>)
    requires kind.Valid() && nKey < TWO64 && (!kind.intKey ==> nKey < TWO32) && nData0 < TWO32
    requires var c, h := kind.ChildPtrSize(), Header(kind, nKey, nData0); c + |h| <= |s| && s[c..c + |h|] == h
    requires var nData := if kind.hasData then nData0
                          else 0; |payload| == (if kind.intKey then nData else nData + nKey) < TWO32
    requires var nHeader := kind.ChildPtrSize() + |Header(kind, nKey, nData0)|;
             var info := CellInfoOf(kind, nHeader, nKey, if kind.hasData then nData0 else 0);
             info.nSize <= |s| && Laid(Shape(nHeader, info.nLocal, kind.usable - 4), s, pages, chain, payload,
                                       |payload|)
    ensures var nHeader := kind.ChildPtrSize() + |Header(kind, nKey, nData0)|;
            var info := CellInfoOf(kind, nHeader, nKey, if kind.hasData then nData0 else 0);
            && ParseCell(kind, s[..info.nSize]) == info && Holds(kind, s[..info.nSize], pages, chain, payload)
  {
    hide Header, CellInfoOf, ParseCell, ByteAt, Chained;
    var c, head := kind.ChildPtrSize(), Header(kind, nKey, nData0);
    var nHeader, nData := c + |head|, if kind.hasData then nData0 else 0;
    var info := CellInfoOf(kind, nHeader, nKey, nData);
    InfoFacts(kind, nHeader, nKey, nData, |payload|);
    var cell := s[..info.nSize];
    Slice(s, info.nSize, c, c + |head|);
    HeaderRead(kind, cell, nKey, nData0);
    var sh := Shape(nHeader, info.nLocal, kind.usable - 4);
    if chain != [] {
      assert |payload| > info.nLocal by {
        Times(0, |chain| - 1, sh.ovfl);
      }
      Slice(s, info.nSize, sh.h + sh.nLocal, sh.h + sh.nLocal + 4);
    }
    forall q | 0 <= q < |payload| ensures ByteAt(sh, cell, pages, chain, q) == payload[q] {
      assert ByteAt(sh, s, pages, chain, q) == payload[q];
      Trimmed(sh, s, info.nSize, pages, chain, q);
    }
  }

  lemma {:induction false} Slice(s: seq<Byte>, n: nat, a: nat, b: nat)
    requires a <= b <= n <= |s|
    ensures s[..n][a..b] == s[a..b]
  {}

  lemma {:induction false} Trimmed(sh: Shape, s: seq<Byte>, n: nat, pages: map<Pgno, seq<Byte>>, chain: seq<Pgno>,
                                   q: nat)
    requires sh.ovfl > 0 && sh.h + sh.nLocal <= n <= |s|
    ensures ByteAt(sh, s[..n], pages, chain, q) == ByteAt(sh, s, pages, chain, q)
  {}

  lemma {:induction false} LastOf(sh: Shape, cell: seq<Byte>, pages: map<Pgno, seq<Byte>>, chain: seq<Pgno>,
                                  payload: seq<Byte>, p: nat)
    requires Laid(sh, cell, pages, chain, payload, p)
    ensures sh.ovfl > 0 && sh.h + sh.nLocal <= |cell| && (chain == [] ==> p <= sh.nLocal)
    ensures chain != [] ==> var last := chain[|chain| - 1]; last in pages && |pages[last]| == sh.ovfl + 4 && last != 0
    ensures chain != [] ==> sh.nLocal + (|chain| - 1) * sh.ovfl <= p
  {
    if chain != [] {
      LinkFact(pages, chain, sh.ovfl, |chain| - 1);
    }
  }

  /** The bytes copied are the next of the payload. */
  lemma {:induction false} SourceNow(payload: seq<Byte>, p: nat, src: seq<Byte>, data: seq<Byte>, inKey: bool, n: nat)
    requires p < |payload| && Source(payload, p, src, data, inKey) && n <= |src|
    ensures p + n <= |payload| && src[..n] == payload[p..p + n] && (|src| == 0 ==> inKey)
    ensures Source(payload, p + n, if n == |src| then data else src[n..], data, inKey && n < |src|)
  {
    var rest := payload[p..];
    assert src == rest[..|src|];
    assert payload[p + n..] == rest[n..];
    assert payload[p..p + n] == rest[..n] == src[..n];
    if inKey {
      assert rest[n..] == src[n..] + data;
    }
  }

  lemma {:induction false} PlaceAfter(sh: Shape, chain: seq<Pgno>, p: nat, pgno: Pgno)
    requires p == sh.nLocal + |chain| * sh.ovfl
    ensures Place(sh, chain + [pgno], p, pgno, 4, sh.ovfl)
  {
    LessOne(|chain| + 1, sh.ovfl);
  }

  lemma {:induction false} AtStart(sh: Shape)
    ensures Place(sh, [], 0, 0, sh.h, sh.nLocal)
  {}

  /** All bytes are laid down exactly when the pages suffice. */
  lemma {:induction false} Enough(sh: Shape, cell: seq<Byte>, pages: map<Pgno, seq<Byte>>, chain: seq<Pgno>,
                                  payload: seq<Byte>, before: seq<Pgno>, after: seq<Pgno>, ok: bool)
    requires Drawn(before, chain, after)
    requires if ok then Laid(sh, cell, pages, chain, payload, |payload|)
             else after == [] && sh.nLocal + |chain| * sh.ovfl < |payload|
    ensures ok == (|payload| <= sh.nLocal + |before| * sh.ovfl)
  {
    Times(|chain|, |before|, sh.ovfl);
  }

  lemma {:induction false} InfoTotal(kind: CellKind, cell: seq<Byte>)
    requires kind.Valid()
    ensures var info := ParseCell(kind, cell);
            && info.nPayload == ((if kind.intKey then 0 else info.nKey) + info.nData) % TWO32
               && info.nLocal <= info.nPayload
            && (info.iOverflow == 0 <==> info.nPayload == info.nLocal)
            && (info.iOverflow != 0 ==> info.iOverflow == info.nHeader + info.nLocal
                                        && info.iOverflow + 4 == info.nSize)
            && info.nHeader + info.nLocal <= info.nSize
  {
    hide GetVarint, GetVarint32, CellInfoOf, LocalSize;
    var n0 := kind.ChildPtrSize();
    var (n1, nData) := if kind.hasData then GetVarint32(cell, n0) else (0, 0);
    var (n2, nKey) := if kind.intKey then GetVarint(cell, n0 + n1) else GetVarint32(cell, n0 + n1);
    HeaderLonger(cell, n0 + n1);
    TotalOf(kind, n0 + n1 + n2, nKey, nData);
  }

  lemma {:induction false} TotalOf(kind: CellKind, nHeader: nat, nKey: nat, nData: nat)
    requires kind.Valid() && nData < TWO32 && nHeader > 0
    ensures var info := CellInfoOf(kind, nHeader, nKey, nData);
            && info.nPayload == ((if kind.intKey then 0 else info.nKey) + info.nData) % TWO32
               && info.nLocal <= info.nPayload
            && (info.iOverflow == 0 <==> info.nPayload == info.nLocal)
            && (info.iOverflow != 0 ==> info.iOverflow == info.nHeader + info.nLocal
                                        && info.iOverflow + 4 == info.nSize)
            && info.nHeader + info.nLocal <= info.nSize
  {
    hide LocalSize;
    LocalFits(kind, CellInfoOf(kind, nHeader, nKey, nData).nPayload);
  }

  lemma {:induction false} Joined(s: seq<Pgno>, x: Pgno)
    requires Distinct(s) && x !in s
    ensures Distinct(s + [x])
  {}

  lemma {:induction false} FirstPage(sh: Shape, cell: seq<Byte>, pages: map<Pgno, seq<Byte>>, chain: seq<Pgno>,
                                     payload: seq<Byte>)
    requires Laid(sh, cell, pages, chain, payload, |payload|) && |payload| > sh.nLocal
    ensures chain != [] && sh.h + sh.nLocal + 4 <= |cell|
            && Num(cell[sh.h + sh.nLocal..sh.h + sh.nLocal + 4]) == chain[0]
  {}

  lemma {:induction false} LinkOf(sh: Shape, cell: seq<Byte>, pages: map<Pgno, seq<Byte>>, chain: seq<Pgno>,
                                  payload: seq<Byte>, k: nat)
    requires Laid(sh, cell, pages, chain, payload, |payload|) && k < |chain|
    ensures chain[k] in pages && |pages[chain[k]]| == sh.ovfl + 4 && chain[k] != 0
            && Num(pages[chain[k]][..4]) == Next(chain, k)
    ensures chain[k] !in chain[..k]
  {
    LinkFact(pages, chain, sh.ovfl, k);
  }

  /** There is a page for every byte that is not local. */
  lemma {:induction false} PageLeft(sh: Shape, cell: seq<Byte>, pages: map<Pgno, seq<Byte>>, chain: seq<Pgno>,
                                    payload: seq<Byte>, g: nat, k: nat)
    requires Laid(sh, cell, pages, chain, payload, |payload|) && sh.nLocal + k * sh.ovfl <= g < |payload|
    ensures k < |chain|
  {
    if k >= |chain| {
      Times(|chain|, k, sh.ovfl);
    }
  }

  lemma {:induction false} LocalChunk(sh: Shape, cell: seq<Byte>, pages: map<Pgno, seq<Byte>>, chain: seq<Pgno>,
                                      payload: seq<Byte>, g: nat, a: nat)
    requires Laid(sh, cell, pages, chain, payload, |payload|) && g + a <= sh.nLocal && g + a <= |payload|
    ensures cell[sh.h + g..sh.h + g + a] == payload[g..g + a]
  {
    var there, here := cell[sh.h + g..sh.h + g + a], payload[g..g + a];
    forall x | 0 <= x < a ensures there[x] == here[x] {
      assert ByteAt(sh, cell, pages, chain, g + x) == payload[g + x];
    }
  }

  lemma {:induction false} PageChunk(sh: Shape, cell: seq<Byte>, pages: map<Pgno, seq<Byte>>, chain: seq<Pgno>,
                                     payload: seq<Byte>, g: nat, k: nat, o: nat, a: nat)
    requires Laid(sh, cell, pages, chain, payload, |payload|) && g == sh.nLocal + k * sh.ovfl + o && o + a <= sh.ovfl
             && g + a <= |payload|
    requires k < |chain| && chain[k] in pages && |pages[chain[k]]| == sh.ovfl + 4
    ensures pages[chain[k]][o + 4..o + 4 + a] == payload[g..g + a]
  {
    hide ByteAt;
    var there, here := pages[chain[k]][o + 4..o + 4 + a], payload[g..g + a];
    forall x | 0 <= x < a ensures there[x] == here[x] {
      assert ByteAt(sh, cell, pages, chain, g + x) == payload[g + x];
      InPage(sh, cell, pages, chain, g + x, k, o + x);
    }
  }

  lemma {:induction false} Grown(was: seq<Byte>, now: seq<Byte>, payload: seq<Byte>, off: nat, d: nat, a: nat)
    requires off + d + a <= |payload| && d + a <= |was| && now == Over(was, d, payload[off + d..off + d + a])
             && was[..d] == payload[off..off + d]
    ensures |now| == |was| && now[..d + a] == payload[off..off + d + a]
            && forall e :: d + a <= e <= |was| ==> now[e..] == was[e..]
  {
    assert now[..d + a] == was[..d] + payload[off + d..off + d + a];
  }
}
