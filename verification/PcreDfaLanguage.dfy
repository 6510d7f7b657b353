/** The states reachable through an encoded pattern are exactly those its language
    allows: paths through an item are words of the item, and conversely. */
module PcreDfaLanguage {
  import opened Basics
  import opened PcreBytecode
  import opened PcreDfaMachine
  import opened PcreLanguage
  import opened PcreDfaSteps

  ghost predicate ToEnd(m: Machine, s: seq<Byte>, k: nat, o: nat, i: nat, e: nat)
    requires m.tables.Sized()
  {
    Path(m, s, k, State(o, 0), i, State(m.endKet, 0), e)
  }

  /** Where an item lies in the code, and what may follow it. */
  ghost predicate Placed(m: Machine, b: nat, part: seq<Byte>) {
    && m.tables.Sized() && m.tables.Valid()
    && Located(m.code, b, part)
    && b + |part| <= m.endKet
    && FollowOk(m.code, b + |part|)
    && |m.code| <= 0x10000
  }

  /** A bracket's branches end at a KET. */
  ghost predicate PlacedAlts(m: Machine, o: nat, alts: Alts, op: Byte)
    requires AltsOk(alts)
  {
    var part := AltsCode(m.ims, alts, op);
    && m.tables.Sized() && m.tables.Valid()
    && Located(m.code, o, part)
    && o + |part| <= m.endKet
    && o + |part| < |m.code| <= 0x10000
    && IsKetOp(m.code[o + |part|])
  }

  // ------------------------------------------------------------ layout

  lemma {:induction false} CatCode(ims: Ims, l: Re, r: Re)
    requires ReOk(l) && ReOk(r)
    ensures Code(ims, Cat(l, r)) == Code(ims, l) + Code(ims, r)
  {}

  lemma {:induction false} ItemCodes(ims: Ims, a: Atom, r: Rep)
    requires AtomOk(a) && RepOk(a, r)
    ensures Code(ims, Empty) == [] && Code(ims, Chr(a, r)) == ChrCode(ims, a, r)
  {
    hide ChrCode;
  }

  ghost function ZeroCode(kind: GroupKind): seq<Byte> {
    if kind.optional then [OP_BRAZERO + LazyBit(kind.lazy)] else []
  }

  lemma {:induction false} GroupCodes(ims: Ims, alts: Alts, kind: GroupKind, n: nat)
    requires ReOk(Group(alts, kind, n))
    ensures Code(ims, Group(alts, kind, n)) == ZeroCode(kind) + GroupCode(ims, alts, kind, n)
    ensures GroupCode(ims, alts, kind, n) ==
            AltsCode(ims, alts, OP_BRA + n) + [KetOp(kind)] + Put(|AltsCode(ims, alts, OP_BRA + n)|)
    ensures AltsCode(ims, alts, OP_BRA + n)[0] == OP_BRA + n
  {}

  lemma {:induction false} AltsCodes(ims: Ims, alts: Alts, op: Byte)
    requires AltsOk(alts)
    ensures AltsCode(ims, alts, op) == [op] + Put(|Code(ims, alts.re)| + 3) + Code(ims, alts.re) + AltsTail(ims, alts)
    ensures AltsCode(ims, alts, op)[0] == op
    ensures AltsTail(ims, alts) == if alts.Last? then [] else AltsCode(ims, alts.rest, OP_ALT)
  {}

  lemma {:induction false} ChrFirstByte(ims: Ims, a: Atom, r: Rep)
    requires AtomOk(a) && RepOk(a, r)
    ensures ChrCode(ims, a, r) != [] && !(OP_CRSTAR <= ChrCode(ims, a, r)[0] <= OP_CRMINRANGE)
  {
    hide Put;
  }

  lemma {:induction false} FirstByte(ims: Ims, re: Re)
    requires ReOk(re) && Code(ims, re) != []
    ensures !(OP_CRSTAR <= Code(ims, re)[0] <= OP_CRMINRANGE)
  {
    match re {
      case Chr(a, r) =>
        ChrFirstByte(ims, a, r);
      case Cat(l, r) =>
        CatCode(ims, l, r);
        if Code(ims, l) != [] { FirstByte(ims, l); } else { FirstByte(ims, r); }
      case Group(alts, kind, n) =>
        hide Code, GroupCode, AltsCode;
        GroupCodes(ims, alts, kind, n);
    }
  }

  lemma {:induction false} PlacedCat(m: Machine, b: nat, l: Re, r: Re)
    requires ReOk(l) && ReOk(r) && Placed(m, b, Code(m.ims, Cat(l, r)))
    ensures Placed(m, b, Code(m.ims, l)) && Placed(m, b + |Code(m.ims, l)|, Code(m.ims, r))
  {
    hide Located, Tables.Valid, Code;
    var p, q := Code(m.ims, l), Code(m.ims, r);
    CatCode(m.ims, l, r);
    LocatedSplit(m.code, b, p, q);
    if q != [] {
      FirstByte(m.ims, r);
      LocatedAt(m.code, b + |p|, q, 0);
    }
  }

  /** The head of a branch: its opcode, its link, its branch, and what comes next. */
  lemma {:induction false} Head(m: Machine, o: nat, alts: Alts, op: Byte)
    requires AltsOk(alts) && PlacedAlts(m, o, alts, op)
    ensures At(m.code, o) == op
    ensures Get(m.code, o + 1) == |Code(m.ims, alts.re)| + 3
    ensures Placed(m, o + 3, Code(m.ims, alts.re))
    ensures var next := o + 3 + |Code(m.ims, alts.re)|;
            if alts.Last? then next == o + |AltsCode(m.ims, alts, op)|
            else PlacedAlts(m, next, alts.rest, OP_ALT) && At(m.code, next) == OP_ALT &&
                 next + |AltsCode(m.ims, alts.rest, OP_ALT)| == o + |AltsCode(m.ims, alts, op)|
  {
    hide Located, Tables.Valid, Code, AltsCode, AltsTail, Put, Get;
    var first, tail := Code(m.ims, alts.re), AltsTail(m.ims, alts);
    AltsCodes(m.ims, alts, op);
    LocatedSplit(m.code, o, [op] + Put(|first| + 3) + first, tail);
    LocatedSplit(m.code, o, [op] + Put(|first| + 3), first);
    LocatedSplit(m.code, o, [op], Put(|first| + 3));
    LocatedAt(m.code, o, [op], 0);
    GetPut(m.code, o + 1, |first| + 3);
    if alts.More? {
      AltsCodes(m.ims, alts.rest, OP_ALT);
      LocatedAt(m.code, o + 3 + |first|, tail, 0);
    }
  }

  lemma {:induction false} SkipsToKet(m: Machine, o: nat, alts: Alts, op: Byte)
    requires AltsOk(alts) && PlacedAlts(m, o, alts, op)
    ensures SkipAlts(m.code, o) == o + |AltsCode(m.ims, alts, op)|
    decreases alts
  {
    hide Located, Tables.Valid, Code, AltsCode, Get;
    Head(m, o, alts, op);
    if alts.More? {
      SkipsToKet(m, o + 3 + |Code(m.ims, alts.re)|, alts.rest, OP_ALT);
    }
  }

  lemma {:induction false} BranchesOf(m: Machine, o: nat, alts: Alts, op: Byte)
    requires AltsOk(alts) && PlacedAlts(m, o, alts, op)
    ensures Branches(m.code, o) ==
            [State(o + 3, 0)] +
            (if alts.Last? then [] else Branches(m.code, o + 3 + |Code(m.ims, alts.re)|))
  {
    hide Located, Tables.Valid, Code, AltsCode, Get;
    Head(m, o, alts, op);
  }

  /** A bracket: its head, its KET, and the KET's link back. */
  lemma {:induction false} BracketShape(m: Machine, g: nat, alts: Alts, kind: GroupKind, n: nat)
    requires AltsOk(alts) && n <= EXTRACT_BASIC_MAX
    requires Placed(m, g, GroupCode(m.ims, alts, kind, n))
    ensures PlacedAlts(m, g, alts, OP_BRA + n)
    ensures At(m.code, g) == OP_BRA + n
    ensures var ket := g + |AltsCode(m.ims, alts, OP_BRA + n)|;
            At(m.code, ket) == KetOp(kind) && Get(m.code, ket + 1) == ket - g && ket < m.endKet &&
            ket + 3 == g + |GroupCode(m.ims, alts, kind, n)|
  {
    hide Located, Tables.Valid, Code, GroupCode, AltsCode, Put, Get;
    var body := AltsCode(m.ims, alts, OP_BRA + n);
    GroupCodes(m.ims, alts, kind, n);
    LocatedSplit(m.code, g, body + [KetOp(kind)], Put(|body|));
    LocatedSplit(m.code, g, body, [KetOp(kind)]);
    LocatedAt(m.code, g + |body|, [KetOp(kind)], 0);
    GetPut(m.code, g + |body| + 1, |body|);
    LocatedAt(m.code, g, body, 0);
  }

  lemma {:induction false} GroupShape(m: Machine, b: nat, alts: Alts, kind: GroupKind, n: nat)
    requires ReOk(Group(alts, kind, n)) && Placed(m, b, Code(m.ims, Group(alts, kind, n)))
    ensures var g := if kind.optional then b + 1 else b;
            && Placed(m, g, GroupCode(m.ims, alts, kind, n))
            && (kind.optional ==> At(m.code, b) == OP_BRAZERO + LazyBit(kind.lazy))
            && g + |GroupCode(m.ims, alts, kind, n)| == b + |Code(m.ims, Group(alts, kind, n))|
  {
    hide Located, Tables.Valid, Code, GroupCode;
    GroupCodes(m.ims, alts, kind, n);
    LocatedSplit(m.code, b, ZeroCode(kind), GroupCode(m.ims, alts, kind, n));
    if kind.optional {
      LocatedAt(m.code, b, ZeroCode(kind), 0);
    }
  }

  // ------------------------------------------------------------ soundness

  lemma {:induction false} FirstStep(m: Machine, s: seq<Byte>, k: nat, a: State, i: nat, b: State, j: nat)
    returns (c: State, h: nat)
    requires m.tables.Sized() && Path(m, s, k, a, i, b, j) && (a != b || i != j)
    ensures k > 0 && Step(m, s, a, i, c, h) && Path(m, s, k - 1, c, h, b, j)
  {
    hide Located, Tables.Valid, Code, GroupCode, AltsCode, ChrCode, Get, Active, New, Branches, SkipAlts, At;
    c, h :| Step(m, s, a, i, c, h) && Path(m, s, k - 1, c, h, b, j);
  }

  lemma {:induction false} ChrSound(m: Machine, s: seq<Byte>, a: Atom, r: Rep, b: nat, n: nat, k: nat, i: nat, e: nat)
    returns (j: nat, k': nat)
    requires AtomOk(a) && RepOk(a, r) && Placed(m, b, ChrCode(m.ims, a, r)) && i <= |s|
    requires Path(m, s, k, State(b, n), i, State(m.endKet, 0), e)
    ensures k' < k && i <= j <= |s| && LeavesIn(r, n, j - i)
    ensures forall x :: i <= x < j ==> Passes(Implemented(m), a, r, s[x])
    ensures ToEnd(m, s, k', b + |ChrCode(m.ims, a, r)|, j, e)
    decreases k
  {
    hide Located, Tables.Valid, Code, GroupCode, AltsCode, ChrCode, Get, Active, New, Branches, SkipAlts, At, Passes;
    ChrFirstByte(m.ims, a, r);
    ChrStep(m, b, a, r, n, if i < |s| then s[i] else 0);
    var c, h := FirstStep(m, s, k, State(b, n), i, State(m.endKet, 0), e);
    if h == i {
      j, k' := i, k - 1;
    } else if LeavesAfter(r, n) {
      j, k' := i + 1, k - 1;
    } else {
      j, k' := ChrSound(m, s, a, r, b, StayCount(r, n), k - 1, h, e);
    }
  }

  lemma {:induction false} Sound(m: Machine, s: seq<Byte>, re: Re, b: nat, k: nat, i: nat, e: nat)
    returns (j: nat, k': nat)
    requires ReOk(re) && Placed(m, b, Code(m.ims, re)) && i <= |s|
    requires ToEnd(m, s, k, b, i, e)
    ensures k' <= k && Matches(Implemented(m), re, s, i, j)
    ensures ToEnd(m, s, k', b + |Code(m.ims, re)|, j, e)
    decreases re, 0, 0
  {
    hide Located, Tables.Valid, Code, GroupCode, AltsCode, ChrCode, Get, Active, New, Branches, SkipAlts, At, Passes;
    match re {
      case Empty =>
        ItemCodes(m.ims, Lit(0), One);
        j, k' := i, k;
      case Chr(a, r) =>
        ItemCodes(m.ims, a, r);
        j, k' := ChrSound(m, s, a, r, b, 0, k, i, e);
        LeavesInCounts(a, r, 0, j - i);
      case Cat(l, r) =>
        CatCode(m.ims, l, r);
        PlacedCat(m, b, l, r);
        var h, k1 := Sound(m, s, l, b, k, i, e);
        j, k' := Sound(m, s, r, b + |Code(m.ims, l)|, k1, h, e);
      case Group(alts, kind, n) =>
        GroupShape(m, b, alts, kind, n);
        var g := if kind.optional then b + 1 else b;
        var k1 := k;
        if kind.optional {
          var t;
          t, k1 := OptionalSound(m, s, alts, kind, n, b, k, i, e);
          if t != g {
            return i, k1;
          }
        }
        var times;
        j, k', times := GroupSound(m, s, alts, kind, n, g, k1, i, e);
    }
  }

  /** OP_BRAZERO leads into its bracket or past it. */
  lemma {:induction false} OptionalSound(m: Machine, s: seq<Byte>, alts: Alts, kind: GroupKind, n: nat, b: nat, k: nat,
                                         i: nat, e: nat)
    returns (t: nat, k': nat)
    requires ReOk(Group(alts, kind, n)) && Placed(m, b, Code(m.ims, Group(alts, kind, n))) && i <= |s|
    requires kind.optional && ToEnd(m, s, k, b, i, e)
    ensures k' < k && ToEnd(m, s, k', t, i, e)
    ensures t == b + 1 || t == b + |Code(m.ims, Group(alts, kind, n))|
  {
    hide Located, Tables.Valid, Code, GroupCode, AltsCode, ChrCode, Get, Active, New, Branches, SkipAlts, At, Passes;
    GroupShape(m, b, alts, kind, n);
    BracketShape(m, b + 1, alts, kind, n);
    SkipsToKet(m, b + 1, alts, OP_BRA + n);
    BraZeroStep(m, State(b, 0), if i < |s| then s[i] else 0);
    var c, h := FirstStep(m, s, k, State(b, 0), i, State(m.endKet, 0), e);
    t, k' := c.offset, k - 1;
  }

  lemma {:induction false} GroupSound(m: Machine, s: seq<Byte>, alts: Alts, kind: GroupKind, n: nat, g: nat, k: nat,
                                      i: nat, e: nat)
    returns (j: nat, k': nat, times: nat)
    requires AltsOk(alts) && n <= EXTRACT_BASIC_MAX && Placed(m, g, GroupCode(m.ims, alts, kind, n)) && i <= |s|
    requires ToEnd(m, s, k, g, i, e)
    ensures k' < k && i <= j <= |s| && Iterated(Implemented(m), alts, s, times, i, j)
    ensures !kind.repeated ==> times == 0
    ensures ToEnd(m, s, k', g + |GroupCode(m.ims, alts, kind, n)|, j, e)
    decreases alts, 1, k
  {
    hide Located, Tables.Valid, Code, GroupCode, AltsCode, ChrCode, Get, Active, New, Branches, SkipAlts, At, Passes;
    BracketShape(m, g, alts, kind, n);
    var ket := g + |AltsCode(m.ims, alts, OP_BRA + n)|;
    HeadStep(m, State(g, 0), if i < |s| then s[i] else 0);
    var c, h := FirstStep(m, s, k, State(g, 0), i, State(m.endKet, 0), e);
    var h1, k1 := AltsSound(m, s, alts, OP_BRA + n, g, c, k - 1, i, e);
    KetStep(m, State(ket, 0), if h1 < |s| then s[h1] else 0);
    var c2, h2 := FirstStep(m, s, k1, State(ket, 0), h1, State(m.endKet, 0), e);
    if c2.offset == ket + 3 {
      j, k', times := h1, k1 - 1, 0;
    } else {
      var rest;
      j, k', rest := GroupSound(m, s, alts, kind, n, g, k1 - 1, h1, e);
      times := rest + 1;
    }
  }

  lemma {:induction false} AltsSound(m: Machine, s: seq<Byte>, alts: Alts, op: Byte, o: nat, t: State, k: nat, i: nat,
                                     e: nat)
    returns (j: nat, k': nat)
    requires AltsOk(alts) && PlacedAlts(m, o, alts, op) && i <= |s|
    requires t in Branches(m.code, o) && Path(m, s, k, t, i, State(m.endKet, 0), e)
    ensures k' <= k && i <= j <= |s| && MatchesAlts(Implemented(m), alts, s, i, j)
    ensures ToEnd(m, s, k', o + |AltsCode(m.ims, alts, op)|, j, e)
    decreases alts, 0, 0
  {
    hide Located, Tables.Valid, Code, GroupCode, AltsCode, ChrCode, Get, Active, New, Branches, SkipAlts, At, Passes;
    Head(m, o, alts, op);
    BranchesOf(m, o, alts, op);
    var next := o + 3 + |Code(m.ims, alts.re)|;
    if t == State(o + 3, 0) {
      j, k' := Sound(m, s, alts.re, o + 3, k, i, e);
      if alts.More? {
        SkipsToKet(m, next, alts.rest, OP_ALT);
        HeadStep(m, State(next, 0), if j < |s| then s[j] else 0);
        var c, h := FirstStep(m, s, k', State(next, 0), j, State(m.endKet, 0), e);
        k' := k' - 1;
      }
    } else {
      j, k' := AltsSound(m, s, alts.rest, OP_ALT, next, t, k, i, e);
    }
  }

  // ------------------------------------------------------------ completeness

  lemma {:induction false} PrependActive(m: Machine, s: seq<Byte>, k: nat, a: State, i: nat, c: State, e: nat)
    requires m.tables.Sized() && c in Active(m, a) && Path(m, s, k, c, i, State(m.endKet, 0), e)
    ensures Path(m, s, k + 1, a, i, State(m.endKet, 0), e)
  {
    hide Active, New;
    assert Step(m, s, a, i, c, i);
  }

  lemma {:induction false} PrependNew(m: Machine, s: seq<Byte>, k: nat, a: State, i: nat, c: State, e: nat)
    requires m.tables.Sized() && i < |s| && c in New(m, a, s[i]) && Path(m, s, k, c, i + 1, State(m.endKet, 0), e)
    ensures Path(m, s, k + 1, a, i, State(m.endKet, 0), e)
  {
    hide Active, New;
    assert Step(m, s, a, i, c, i + 1);
  }

  lemma {:induction false} ChrComplete(m: Machine, s: seq<Byte>, a: Atom, r: Rep, b: nat, n: nat, i: nat, j: nat,
                                       k': nat, e: nat)
    returns (k: nat)
    requires AtomOk(a) && RepOk(a, r) && Placed(m, b, ChrCode(m.ims, a, r))
    requires i <= j <= |s| && LeavesIn(r, n, j - i)
    requires forall x :: i <= x < j ==> Passes(Implemented(m), a, r, s[x])
    requires ToEnd(m, s, k', b + |ChrCode(m.ims, a, r)|, j, e)
    ensures Path(m, s, k, State(b, n), i, State(m.endKet, 0), e)
    decreases j - i
  {
    hide Located, Tables.Valid, Code, GroupCode, AltsCode, ChrCode, Get, Active, New, Branches, SkipAlts, At, Passes;
    ChrStep(m, b, a, r, n, if i < |s| then s[i] else 0);
    var out := Leave(b, |ChrCode(m.ims, a, r)|);
    if i == j {
      PrependActive(m, s, k', State(b, n), i, out, e);
      k := k' + 1;
    } else if LeavesAfter(r, n) {
      PrependNew(m, s, k', State(b, n), i, out, e);
      k := k' + 1;
    } else {
      var next := State(b, StayCount(r, n));
      var k1 := ChrComplete(m, s, a, r, b, next.count, i + 1, j, k', e);
      PrependNew(m, s, k1, State(b, n), i, next, e);
      k := k1 + 1;
    }
  }

  lemma {:induction false} Complete(m: Machine, s: seq<Byte>, re: Re, b: nat, i: nat, j: nat, k': nat, e: nat)
    returns (k: nat)
    requires ReOk(re) && Placed(m, b, Code(m.ims, re))
    requires Matches(Implemented(m), re, s, i, j) && ToEnd(m, s, k', b + |Code(m.ims, re)|, j, e)
    ensures ToEnd(m, s, k, b, i, e)
    decreases re, 0, 0
  {
    hide Located, Tables.Valid, Code, GroupCode, AltsCode, ChrCode, Get, Active, New, Branches, SkipAlts, At, Passes;
    match re {
      case Empty =>
        ItemCodes(m.ims, Lit(0), One);
        k := k';
      case Chr(a, r) =>
        ItemCodes(m.ims, a, r);
        LeavesInCounts(a, r, 0, j - i);
        k := ChrComplete(m, s, a, r, b, 0, i, j, k', e);
      case Cat(l, r) =>
        CatCode(m.ims, l, r);
        PlacedCat(m, b, l, r);
        var h: nat :| Matches(Implemented(m), l, s, i, h) && Matches(Implemented(m), r, s, h, j);
        var k1 := Complete(m, s, r, b + |Code(m.ims, l)|, h, j, k', e);
        k := Complete(m, s, l, b, i, h, k1, e);
      case Group(alts, kind, n) =>
        GroupShape(m, b, alts, kind, n);
        var g := if kind.optional then b + 1 else b;
        var t, k1 := g, k';
        if kind.optional && i == j {
          t := b + |Code(m.ims, re)|;
        } else {
          var times: nat := 0;
          if kind.repeated {
            times :| Iterated(Implemented(m), alts, s, times, i, j);
          }
          k1 := GroupComplete(m, s, alts, kind, n, g, times, i, j, k', e);
        }
        k := k1;
        if kind.optional {
          OptionalComplete(m, s, alts, kind, n, b, t, k1, i, e);
          k := k1 + 1;
        }
    }
  }

  lemma {:induction false} OptionalComplete(m: Machine, s: seq<Byte>, alts: Alts, kind: GroupKind, n: nat, b: nat,
                                            t: nat, k: nat, i: nat, e: nat)
    requires ReOk(Group(alts, kind, n)) && Placed(m, b, Code(m.ims, Group(alts, kind, n)))
    requires kind.optional && ToEnd(m, s, k, t, i, e)
    requires t == b + 1 || t == b + |Code(m.ims, Group(alts, kind, n))|
    ensures ToEnd(m, s, k + 1, b, i, e)
  {
    hide Located, Tables.Valid, Code, GroupCode, AltsCode, ChrCode, Get, Active, New, Branches, SkipAlts, At, Passes;
    GroupShape(m, b, alts, kind, n);
    BracketShape(m, b + 1, alts, kind, n);
    SkipsToKet(m, b + 1, alts, OP_BRA + n);
    BraZeroStep(m, State(b, 0), 0);
    PrependActive(m, s, k, State(b, 0), i, State(t, 0), e);
  }

  lemma {:induction false} GroupComplete(m: Machine, s: seq<Byte>, alts: Alts, kind: GroupKind, n: nat, g: nat,
                                         times: nat, i: nat, j: nat, k': nat, e: nat)
    returns (k: nat)
    requires AltsOk(alts) && n <= EXTRACT_BASIC_MAX && Placed(m, g, GroupCode(m.ims, alts, kind, n))
    requires Iterated(Implemented(m), alts, s, times, i, j) && (times > 0 ==> kind.repeated)
    requires ToEnd(m, s, k', g + |GroupCode(m.ims, alts, kind, n)|, j, e)
    ensures ToEnd(m, s, k, g, i, e)
    decreases alts, 1, times
  {
    hide Located, Tables.Valid, Code, GroupCode, AltsCode, ChrCode, Get, Active, New, Branches, SkipAlts, At, Passes;
    BracketShape(m, g, alts, kind, n);
    var ket := g + |AltsCode(m.ims, alts, OP_BRA + n)|;
    KetStep(m, State(ket, 0), 0);
    var h: nat, after, k1 := j, State(ket + 3, 0), k';
    if times > 0 {
      h :| MatchesAlts(Implemented(m), alts, s, i, h) && Iterated(Implemented(m), alts, s, times - 1, h, j);
      k1 := GroupComplete(m, s, alts, kind, n, g, times - 1, h, j, k', e);
      after := State(g, 0);
    }
    PrependActive(m, s, k1, State(ket, 0), h, after, e);
    var k2, t := AltsComplete(m, s, alts, OP_BRA + n, g, i, h, k1 + 1, e);
    HeadStep(m, State(g, 0), 0);
    PrependActive(m, s, k2, State(g, 0), i, t, e);
    k := k2 + 1;
  }

  lemma {:induction false} AltsComplete(m: Machine, s: seq<Byte>, alts: Alts, op: Byte, o: nat, i: nat, j: nat, k': nat,
                                        e: nat)
    returns (k: nat, t: State)
    requires AltsOk(alts) && PlacedAlts(m, o, alts, op)
    requires MatchesAlts(Implemented(m), alts, s, i, j)
    requires ToEnd(m, s, k', o + |AltsCode(m.ims, alts, op)|, j, e)
    ensures t in Branches(m.code, o) && Path(m, s, k, t, i, State(m.endKet, 0), e)
    decreases alts, 0, 0
  {
    hide Located, Tables.Valid, Code, GroupCode, AltsCode, ChrCode, Get, Active, New, Branches, SkipAlts, At, Passes;
    Head(m, o, alts, op);
    BranchesOf(m, o, alts, op);
    var next := o + 3 + |Code(m.ims, alts.re)|;
    if Matches(Implemented(m), alts.re, s, i, j) {
      var k1 := k';
      if alts.More? {
        SkipsToKet(m, next, alts.rest, OP_ALT);
        HeadStep(m, State(next, 0), 0);
        PrependActive(m, s, k', State(next, 0), j, State(o + |AltsCode(m.ims, alts, op)|, 0), e);
        k1 := k' + 1;
      }
      k := Complete(m, s, alts.re, o + 3, i, j, k1, e);
      t := State(o + 3, 0);
    } else {
      k, t := AltsComplete(m, s, alts.rest, OP_ALT, next, i, j, k', e);
    }
  }

  // ------------------------------------------------------------ whole patterns

  ghost function PatternMachine(ims: Ims, tables: Tables, alts: Alts): Machine
    requires AltsOk(alts)
  {
    Machine(Pattern(ims, alts), EndKet(ims, alts), ims, tables)
  }

  lemma {:induction false} PatternPlaced(ims: Ims, tables: Tables, alts: Alts)
    requires AltsOk(alts) && Fits(ims, alts) && tables.Valid()
    ensures var m := PatternMachine(ims, tables, alts);
            PlacedAlts(m, 0, alts, OP_BRA) && At(m.code, m.endKet) == OP_KET && m.endKet + 4 == |m.code|
  {
    hide AltsCode, Put, Code;
    var m := PatternMachine(ims, tables, alts);
    var body := AltsCode(ims, alts, OP_BRA);
    assert m.code == body + [OP_KET] + Put(|body|) + [OP_END];
    assert m.code[0..|body|] == body;
  }

  /** Started at the outer bracket's branches, the matcher reaches the end state at exactly
      the positions where a word of the pattern ends. */
  lemma {:induction false} PatternLanguage(ims: Ims, tables: Tables, alts: Alts, s: seq<Byte>, i: nat, e: nat)
    requires AltsOk(alts) && Fits(ims, alts) && tables.Valid() && i <= |s|
    ensures var m := PatternMachine(ims, tables, alts);
            (exists t :: t in Branches(m.code, 0) && Reaches(m, s, t, i, State(m.endKet, 0), e))
            <==> MatchesAlts(Implemented(m), alts, s, i, e)
  {
    hide Tables.Valid, AltsCode, Put, Code, Branches, Active, New, At, Pattern, MatchesAlts;
    var m := PatternMachine(ims, tables, alts);
    var end := State(m.endKet, 0);
    PatternPlaced(ims, tables, alts);
    if t :| t in Branches(m.code, 0) && Reaches(m, s, t, i, end, e) {
      var k: nat :| Path(m, s, k, t, i, end, e);
      var j, k' := AltsSound(m, s, alts, OP_BRA, 0, t, k, i, e);
      EndStep(m, end, if j < |s| then s[j] else 0);
      if j != e {
        var c, h := FirstStep(m, s, k', end, j, end, e);
      }
      assert MatchesAlts(Implemented(m), alts, s, i, e);
    }
    if MatchesAlts(Implemented(m), alts, s, i, e) {
      assert ToEnd(m, s, 0, m.endKet, e, e);
      var k, t := AltsComplete(m, s, alts, OP_BRA, 0, i, e, 0, e);
      assert Reaches(m, s, t, i, end, e);
    }
  }
}
