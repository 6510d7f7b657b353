/** Every offset the matcher can hold is the start of an item, so it never reads
    outside the code; and counts start from zero at each item. */
module PcreDfaOffsets {
  import opened Basics
  import opened PcreBytecode
  import opened PcreDfaMachine
  import opened PcreLanguage
  import opened PcreDfaSteps
  import opened PcreDfaLanguage

  ghost function Offsets(ims: Ims, re: Re, b: nat): set<nat>
    requires ReOk(re)
    decreases re, 0
  {
    match re
    case Empty => {}
    case Chr(_, _) => {b}
    case Cat(l, r) => Offsets(ims, l, b) + Offsets(ims, r, b + |Code(ims, l)|)
    case Group(alts, kind, n) =>
      var g := if kind.optional then b + 1 else b;
      {b} + AltsOffsets(ims, alts, g) + {g + |AltsCode(ims, alts, OP_BRA + n)|}
  }

  ghost function AltsOffsets(ims: Ims, alts: Alts, o: nat): set<nat>
    requires AltsOk(alts)
    decreases alts, 0
  {
    var next := o + 3 + |Code(ims, alts.re)|;
    {o} + Offsets(ims, alts.re, o + 3) + (if alts.Last? then {} else AltsOffsets(ims, alts.rest, next))
  }

  /** The links from the head at `o` stay inside the code and go forward. */
  ghost predicate ChainOk(code: seq<Byte>, o: nat)
    decreases |code| - o
  {
    && o + 3 <= |code|
    && 3 <= Get(code, o + 1)
    && o + Get(code, o + 1) < |code|
    && (code[o + Get(code, o + 1)] == OP_ALT ==> ChainOk(code, o + Get(code, o + 1)))
  }

  /** The opcode at `o` and all its operands lie inside the code. */
  ghost predicate Readable(code: seq<Byte>, o: nat) {
    && o < |code|
    && var op := code[o];
       if IsKetOp(op) then o + 3 <= |code| && Get(code, o + 1) <= o
       else if op == OP_ALT || op >= OP_BRA then ChainOk(code, o)
       else if op == OP_BRAZERO || op == OP_BRAMINZERO then ChainOk(code, o + 1)
       else if IsClassOp(op) then
         o + 33 < |code| && (OP_CRRANGE <= code[o + 33] <= OP_CRMINRANGE ==> o + 38 <= |code|)
       else if IsTypeOp(op) || op == OP_ANY then true
       else if OP_CHAR <= op <= OP_TYPEEXACT then
         o + (if IsCountOp(op) || 48 <= op <= 50 then 4 else 2) <= |code|
       else false
  }

  /** One move from `st` stays within `inside` or leaves to `exit`, and restarts the count
      unless it stays in place. */
  ghost predicate Stays(m: Machine, st: State, c: Byte, inside: set<nat>, exit: nat)
    requires m.tables.Sized()
  {
    && Readable(m.code, st.offset)
    && (forall t :: t in Active(m, st) ==> t.count == 0 && (t.offset in inside || t.offset == exit))
    && (forall t :: t in New(m, st, c) ==>
          && (t.offset in inside || t.offset == exit)
          && (t.count == 0 || (t.offset == st.offset && t.count == st.count + 1)))
  }

  lemma {:induction false} ChrReadable(m: Machine, b: nat, a: Atom, r: Rep)
    requires AtomOk(a) && RepOk(a, r) && Placed(m, b, ChrCode(m.ims, a, r))
    ensures Readable(m.code, b)
  {
    hide Tables.Valid, Active, New, Put;
    var p := ChrCode(m.ims, a, r);
    LocatedAt(m.code, b, p, 0);
    if a.Class? {
      if r.One? {
        assert |p| == 33;
      } else {
        LocatedAt(m.code, b, p, 33);
      }
    }
  }

  lemma {:induction false} StartInside(ims: Ims, re: Re, b: nat)
    requires ReOk(re)
    ensures Code(ims, re) == [] || b in Offsets(ims, re, b)
  {
    hide GroupCode, AltsCode, ChrCode;
    match re {
      case Empty =>
      case Chr(_, _) =>
      case Cat(l, r) =>
        StartInside(ims, l, b);
        StartInside(ims, r, b + |Code(ims, l)|);
      case Group(_, _, _) =>
    }
  }

  lemma {:induction false} ChainFollows(m: Machine, o: nat, alts: Alts, op: Byte)
    requires AltsOk(alts) && PlacedAlts(m, o, alts, op)
    ensures ChainOk(m.code, o)
    decreases alts
  {
    hide Located, Tables.Valid, Code, AltsCode, Get;
    Head(m, o, alts, op);
    if alts.More? {
      ChainFollows(m, o + 3 + |Code(m.ims, alts.re)|, alts.rest, OP_ALT);
    }
  }

  lemma {:induction false} BranchStarts(m: Machine, o: nat, alts: Alts, op: Byte, t: State)
    requires AltsOk(alts) && PlacedAlts(m, o, alts, op) && t in Branches(m.code, o)
    ensures t.count == 0
    ensures t.offset in AltsOffsets(m.ims, alts, o) || t.offset == o + |AltsCode(m.ims, alts, op)|
    decreases alts
  {
    hide Located, Tables.Valid, Code, AltsCode, Get, Branches;
    Head(m, o, alts, op);
    BranchesOf(m, o, alts, op);
    if t == State(o + 3, 0) {
      StartInside(m.ims, alts.re, o + 3);
      if alts.More? {
        HeadInside(m.ims, alts.rest, o + 3 + |Code(m.ims, alts.re)|);
      }
    } else {
      BranchStarts(m, o + 3 + |Code(m.ims, alts.re)|, alts.rest, OP_ALT, t);
    }
  }

  lemma {:induction false} HeadInside(ims: Ims, alts: Alts, o: nat)
    requires AltsOk(alts)
    ensures o in AltsOffsets(ims, alts, o)
  {}

  lemma {:induction false} ItemStays(m: Machine, re: Re, b: nat, st: State, c: Byte)
    requires ReOk(re) && Placed(m, b, Code(m.ims, re)) && st.offset in Offsets(m.ims, re, b)
    ensures st.offset < m.endKet
    ensures Stays(m, st, c, Offsets(m.ims, re, b), b + |Code(m.ims, re)|)
    decreases re, 0
  {
    hide Located, Tables.Valid, Code, GroupCode, AltsCode, ChrCode, Get, Active, New, Branches, SkipAlts, At, Passes,
         Readable;
    match re {
      case Empty =>
      case Chr(a, r) =>
        ItemCodes(m.ims, a, r);
        ChrFirstByte(m.ims, a, r);
        ChrReadable(m, b, a, r);
        ChrStep(m, b, a, r, st.count, c);
      case Cat(l, r) =>
        CatCode(m.ims, l, r);
        PlacedCat(m, b, l, r);
        var mid := b + |Code(m.ims, l)|;
        if st.offset in Offsets(m.ims, l, b) {
          ItemStays(m, l, b, st, c);
          StartInside(m.ims, r, mid);
        } else {
          ItemStays(m, r, mid, st, c);
        }
      case Group(alts, kind, n) =>
        GroupStays(m, alts, kind, n, b, st, c);
    }
  }

  lemma {:induction false} GroupStays(m: Machine, alts: Alts, kind: GroupKind, n: nat, b: nat, st: State, c: Byte)
    requires ReOk(Group(alts, kind, n)) && Placed(m, b, Code(m.ims, Group(alts, kind, n)))
    requires st.offset in Offsets(m.ims, Group(alts, kind, n), b)
    ensures st.offset < m.endKet
    ensures Stays(m, st, c, Offsets(m.ims, Group(alts, kind, n), b), b + |Code(m.ims, Group(alts, kind, n))|)
    decreases alts, 1
  {
    hide Located, Tables.Valid, Code, GroupCode, AltsCode, ChrCode, Get, Active, New, Branches, SkipAlts, Passes, Stays;
    GroupShape(m, b, alts, kind, n);
    var g := if kind.optional then b + 1 else b;
    BracketShape(m, g, alts, kind, n);
    var ket := g + |AltsCode(m.ims, alts, OP_BRA + n)|;
    if st.offset == b && kind.optional {
      BraZeroStays(m, alts, kind, n, b, st, c);
    } else if st.offset == ket {
      KetStays(m, alts, kind, n, b, st, c);
    } else {
      AltsStay(m, alts, OP_BRA + n, g, st, c);
      StaysWiden(m, st, c, AltsOffsets(m.ims, alts, g), ket, Offsets(m.ims, Group(alts, kind, n), b),
                 b + |Code(m.ims, Group(alts, kind, n))|);
    }
  }

  lemma {:induction false} StaysWiden(m: Machine, st: State, c: Byte, inside: set<nat>, exit: nat, inside': set<nat>,
                                      exit': nat)
    requires m.tables.Sized() && Stays(m, st, c, inside, exit) && inside <= inside'
             && (exit in inside' || exit == exit')
    ensures Stays(m, st, c, inside', exit')
  {
    hide Active, New, Readable;
  }

  /** An optional group may be passed over, or entered. */
  lemma {:induction false} BraZeroStays(m: Machine, alts: Alts, kind: GroupKind, n: nat, b: nat, st: State, c: Byte)
    requires ReOk(Group(alts, kind, n)) && Placed(m, b, Code(m.ims, Group(alts, kind, n))) && kind.optional
             && st.offset == b
    ensures st.offset < m.endKet
    ensures Stays(m, st, c, Offsets(m.ims, Group(alts, kind, n), b), b + |Code(m.ims, Group(alts, kind, n))|)
  {
    hide Located, Tables.Valid, Code, GroupCode, AltsCode, ChrCode, Get, Active, New, Branches, SkipAlts, Passes;
    GroupShape(m, b, alts, kind, n);
    BracketShape(m, b + 1, alts, kind, n);
    HeadInside(m.ims, alts, b + 1);
    ChainFollows(m, b + 1, alts, OP_BRA + n);
    SkipsToKet(m, b + 1, alts, OP_BRA + n);
    BraZeroStep(m, st, c);
  }

  /** At its end a group is left, or if it repeats entered again. */
  lemma {:induction false} KetStays(m: Machine, alts: Alts, kind: GroupKind, n: nat, b: nat, st: State, c: Byte)
    requires ReOk(Group(alts, kind, n)) && Placed(m, b, Code(m.ims, Group(alts, kind, n)))
    requires st.offset == (if kind.optional then b + 1 else b) + |AltsCode(m.ims, alts, OP_BRA + n)|
    ensures st.offset < m.endKet
    ensures Stays(m, st, c, Offsets(m.ims, Group(alts, kind, n), b), b + |Code(m.ims, Group(alts, kind, n))|)
  {
    hide Located, Tables.Valid, Code, GroupCode, AltsCode, ChrCode, Get, Active, New, Branches, SkipAlts, Passes;
    GroupShape(m, b, alts, kind, n);
    var g := if kind.optional then b + 1 else b;
    BracketShape(m, g, alts, kind, n);
    HeadInside(m.ims, alts, g);
    KetStep(m, st, c);
  }

  lemma {:induction false} AltsStay(m: Machine, alts: Alts, op: Byte, o: nat, st: State, c: Byte)
    requires AltsOk(alts) && PlacedAlts(m, o, alts, op) && st.offset in AltsOffsets(m.ims, alts, o)
    requires op == OP_ALT || op >= OP_BRA
    ensures st.offset < m.endKet
    ensures Stays(m, st, c, AltsOffsets(m.ims, alts, o), o + |AltsCode(m.ims, alts, op)|)
    decreases alts, 0
  {
    hide Located, Tables.Valid, Code, GroupCode, AltsCode, ChrCode, Get, Active, New, Branches, SkipAlts, Passes;
    Head(m, o, alts, op);
    var next := o + 3 + |Code(m.ims, alts.re)|;
    if st.offset == o {
      ChainFollows(m, o, alts, op);
      HeadStep(m, st, c);
      if op == OP_ALT {
        SkipsToKet(m, o, alts, op);
      } else {
        forall t | t in Active(m, st)
          ensures t.count == 0
          ensures t.offset in AltsOffsets(m.ims, alts, o) || t.offset == o + |AltsCode(m.ims, alts, op)|
        {
          BranchStarts(m, o, alts, op, t);
        }
      }
    } else if st.offset in Offsets(m.ims, alts.re, o + 3) {
      ItemStays(m, alts.re, o + 3, st, c);
      if alts.More? {
        HeadInside(m.ims, alts.rest, next);
      }
    } else {
      AltsStay(m, alts.rest, OP_ALT, next, st, c);
    }
  }
}
