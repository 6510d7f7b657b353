/** What the matcher does at each item of an encoded pattern, read off the item itself. */
module PcreDfaSteps {
  import opened Basics
  import opened PcreBytecode
  import opened PcreDfaMachine
  import opened PcreLanguage

  ghost predicate Located(code: seq<Byte>, b: nat, part: seq<Byte>) {
    b + |part| <= |code| && code[b..b + |part|] == part
  }

  lemma {:induction false} LocatedAt(code: seq<Byte>, b: nat, part: seq<Byte>, k: nat)
    requires Located(code, b, part) && k < |part|
    ensures At(code, b + k) == part[k]
  {
    assert code[b..b + |part|][k] == code[b + k];
  }

  lemma {:induction false} LocatedSplit(code: seq<Byte>, b: nat, p: seq<Byte>, q: seq<Byte>)
    requires Located(code, b, p + q)
    ensures Located(code, b, p) && Located(code, b + |p|, q)
  {
    var part := code[b..b + |p + q|];
    assert part[..|p|] == p && part[|p|..] == q;
    assert code[b..b + |p|] == part[..|p|];
    assert code[b + |p|..b + |p| + |q|] == part[|p|..];
  }

  /** A link or count written by Put is the one Get reads. */
  lemma {:induction false} GetPut(code: seq<Byte>, b: nat, v: nat)
    requires Located(code, b, Put(v)) && v < 0x10000
    ensures Get(code, b) == v
  {
    LocatedAt(code, b, Put(v), 0);
    LocatedAt(code, b, Put(v), 1);
  }

  // ------------------------------------------------- repeats as counters

  ghost predicate CanLeave(r: Rep, n: nat) {
    match r
    case One => false
    case Star(_) => true
    case Plus(_) => n > 0
    case Query(_) => true
    case Upto(_, _) => true
    case Exact(_) => false
    case Range(_, min, _) => n >= min
  }

  /** After one more character at count `n`: leave the item, or stay with a new count. */
  ghost predicate LeavesAfter(r: Rep, n: nat) {
    match r
    case One => true
    case Star(_) => false
    case Plus(_) => false
    case Query(_) => true
    case Upto(_, max) => n + 1 >= max
    case Exact(max) => n + 1 >= max
    case Range(_, _, max) => n + 1 >= max
  }

  ghost function StayCount(r: Rep, n: nat): nat {
    if r.Star? then 0 else n + 1
  }

  /** An item is left, from count `n`, after `k` more characters. */
  ghost predicate LeavesIn(r: Rep, n: nat, k: nat)
    decreases k
  {
    if k == 0 then CanLeave(r, n)
    else if LeavesAfter(r, n) then k == 1
    else LeavesIn(r, StayCount(r, n), k - 1)
  }

  /** Counting up from zero lets through exactly the implemented numbers of repetitions. */
  lemma {:induction false} LeavesInCounts(a: Atom, r: Rep, n: nat, k: nat)
    requires RepOk(a, r)
    requires n > 0 ==> r.Plus? || (r.Upto? && n < r.n) || (r.Exact? && n < r.n) || (r.Range? && n < r.max)
    ensures LeavesIn(r, n, k) <==>
            (if r.Star? then true else if r.Plus? then n + k >= 1
             else if r.Range? && r.max == 0 then k == 1 || (k == 0 && r.min == 0)
             else Counts(false, r, n + k))
    decreases k
  {
    if k > 0 && !LeavesAfter(r, n) {
      LeavesInCounts(a, r, StayCount(r, n), k - 1);
    }
  }

  ghost function Leave(b: nat, len: nat): State { State(b + len, 0) }

  ghost predicate StepsAs(m: Machine, b: nat, n: nat, c: Byte, len: nat, passes: bool, r: Rep)
    requires m.tables.Sized()
  {
    && Active(m, State(b, n)) == (if CanLeave(r, n) then [Leave(b, len)] else [])
    && New(m, State(b, n), c) ==
       (if passes then [if LeavesAfter(r, n) then Leave(b, len) else State(b, StayCount(r, n))] else [])
  }

  /** No byte that could be mistaken for a class repeat. */
  ghost predicate FollowOk(code: seq<Byte>, o: nat) {
    o < |code| && !(OP_CRSTAR <= code[o] <= OP_CRMINRANGE)
  }

  ghost function Implemented(m: Machine): Reading { Reading(false, m.ims, m.tables) }

  /** Whether `c` passes the test of a repeat opcode of family `base` with operand `d`. */
  ghost predicate RepeatTest(m: Machine, base: int, d: Byte, r: Rep, c: Byte)
    requires m.tables.Sized()
  {
    var caseless := if r.Star? || r.Query? then m.ims.Nonzero() else m.ims.caseless;
    if base == OP_STAR then LitTest(m.tables, caseless, d, c)
    else if base == OP_NOTSTAR then !LitTest(m.tables, caseless, d, c)
    else TypeTest(m.ims, m.tables, d, c)
  }

  ghost predicate Family(base: int) { base == OP_STAR || base == OP_NOTSTAR || base == OP_TYPESTAR }

  lemma {:induction false} PlainRepeatStep(m: Machine, b: nat, base: int, d: Byte, r: Rep, n: nat, c: Byte)
    requires m.tables.Sized() && Family(base) && (r.Star? || r.Plus? || r.Query?)
    requires At(m.code, b) == RepeatCode(base, r)[0] && At(m.code, b + 1) == d
    ensures StepsAs(m, b, n, c, 2, RepeatTest(m, base, d, r, c), r)
  {}

  lemma {:induction false} CountedRepeatStep(m: Machine, b: nat, base: int, d: Byte, r: Rep, n: nat, c: Byte)
    requires m.tables.Sized() && Family(base) && (r.Upto? || r.Exact?) && 1 <= r.n
    requires At(m.code, b) == RepeatCode(base, r)[0] && Get(m.code, b + 1) == r.n && At(m.code, b + 3) == d
    ensures StepsAs(m, b, n, c, 4, RepeatTest(m, base, d, r, c), r)
  {}

  lemma {:induction false} RepeatStep(m: Machine, b: nat, base: int, d: Byte, r: Rep, n: nat, c: Byte)
    requires m.tables.Sized() && Family(base) && !r.One? && !r.Range?
    requires r.Upto? || r.Exact? ==> 1 <= r.n < 0x10000
    requires Located(m.code, b, RepeatCode(base, r) + [d])
    ensures StepsAs(m, b, n, c, |RepeatCode(base, r)| + 1, RepeatTest(m, base, d, r, c), r)
  {
    var p := RepeatCode(base, r);
    LocatedAt(m.code, b, p + [d], 0);
    LocatedAt(m.code, b, p + [d], |p|);
    if r.Upto? || r.Exact? {
      assert p == [p[0]] + Put(r.n);
      LocatedSplit(m.code, b, p, [d]);
      LocatedSplit(m.code, b, [p[0]], Put(r.n));
      GetPut(m.code, b + 1, r.n);
      CountedRepeatStep(m, b, base, d, r, n, c);
    } else {
      PlainRepeatStep(m, b, base, d, r, n, c);
    }
  }

  lemma {:induction false} OneStep(m: Machine, b: nat, a: Atom, n: nat, c: Byte)
    requires m.tables.Valid() && AtomOk(a) && !a.Class?
    requires Located(m.code, b, ChrCode(m.ims, a, One))
    ensures StepsAs(m, b, n, c, |ChrCode(m.ims, a, One)|, Passes(Implemented(m), a, One, c), One)
  {
    var p := ChrCode(m.ims, a, One);
    LocatedAt(m.code, b, p, 0);
    if |p| == 2 {
      LocatedAt(m.code, b, p, 1);
    }
  }

  lemma {:induction false} ClassStep(m: Machine, b: nat, a: Atom, r: Rep, n: nat, c: Byte)
    requires m.tables.Sized() && AtomOk(a) && a.Class? && RepOk(a, r)
    requires Located(m.code, b, ChrCode(m.ims, a, r))
    requires FollowOk(m.code, b + |ChrCode(m.ims, a, r)|)
    ensures StepsAs(m, b, n, c, |ChrCode(m.ims, a, r)|, Passes(Implemented(m), a, r, c), r)
  {
    hide Get, ClassTest, Passes, Tables.Valid, Located, Put, HasBit;
    ClassCodeAt(m, b, a, r);
    ClassHere(m, b, a, r, c);
  }

  lemma {:induction false} ClassCodeAt(m: Machine, b: nat, a: Atom, r: Rep)
    requires m.tables.Sized() && AtomOk(a) && a.Class? && RepOk(a, r) && Located(m.code, b, ChrCode(m.ims, a, r))
    ensures var p, q := ChrCode(m.ims, a, r), ClassRepeatCode(r);
            && b < |m.code| && |p| == 33 + |q| && m.code[b] == p[0] && (r.One? ==> q == [])
            && (!r.One? ==> q != [] && b + 33 < |m.code| && m.code[b + 33] == q[0])
            && (r.Range? ==> Get(m.code, b + 34) == r.min && Get(m.code, b + 36) == r.max)
  {
    hide Get;
    var p := ChrCode(m.ims, a, r);
    var q := ClassRepeatCode(r);
    LocatedAt(m.code, b, p, 0);
    assert p == [p[0]] + a.bits + q;
    LocatedSplit(m.code, b, [p[0]] + a.bits, q);
    if !r.One? {
      LocatedAt(m.code, b + 33, q, 0);
      if r.Range? {
        RangeLimits(m.code, b + 33, q[0], r.min, r.max);
      }
    }
  }

  lemma {:induction false} ClassHere(m: Machine, b: nat, a: Atom, r: Rep, c: Byte)
    requires m.tables.Sized() && AtomOk(a) && a.Class? && Located(m.code, b, ChrCode(m.ims, a, r))
    ensures ClassTest(m.code, b, c) == Passes(Implemented(m), a, r, c)
  {
    LocatedAt(m.code, b, ChrCode(m.ims, a, r), 1 + c / 8);
  }

  lemma {:induction false} RangeLimits(code: seq<Byte>, b: nat, op: Byte, min: nat, max: nat)
    requires Located(code, b, [op] + Put(min) + Put(max)) && min < 0x10000 && max < 0x10000
    ensures Get(code, b + 1) == min && Get(code, b + 3) == max
  {
    LocatedSplit(code, b, [op] + Put(min), Put(max));
    LocatedSplit(code, b, [op], Put(min));
    GetPut(code, b + 1, min);
    GetPut(code, b + 3, max);
  }

  /** One item: from count `n` it may be left at once, and each character it passes either
      leaves it or counts. */
  lemma {:induction false} ChrStep(m: Machine, b: nat, a: Atom, r: Rep, n: nat, c: Byte)
    requires m.tables.Valid() && AtomOk(a) && RepOk(a, r)
    requires Located(m.code, b, ChrCode(m.ims, a, r))
    requires FollowOk(m.code, b + |ChrCode(m.ims, a, r)|)
    ensures StepsAs(m, b, n, c, |ChrCode(m.ims, a, r)|, Passes(Implemented(m), a, r, c), r)
  {
    if a.Class? {
      ClassStep(m, b, a, r, n, c);
    } else if r.One? {
      OneStep(m, b, a, n, c);
    } else {
      RepeatStep(m, b, if a.Lit? then OP_STAR else if a.NotLit? then OP_NOTSTAR else OP_TYPESTAR,
                 if a.Type? then a.t else a.c, r, n, c);
    }
  }

  // ------------------------------------------------- brackets

  lemma {:induction false} KetStep(m: Machine, st: State, c: Byte)
    requires m.tables.Sized() && IsKetOp(At(m.code, st.offset)) && st.offset != m.endKet
    requires Get(m.code, st.offset + 1) <= st.offset
    ensures Active(m, st) == [State(st.offset + 3, 0)] +
              (if At(m.code, st.offset) != OP_KET then [State(st.offset - Get(m.code, st.offset + 1), 0)] else [])
    ensures New(m, st, c) == []
  {}

  lemma {:induction false} EndStep(m: Machine, st: State, c: Byte)
    requires m.tables.Sized() && IsKetOp(At(m.code, st.offset)) && st.offset == m.endKet
    ensures Active(m, st) == [] && New(m, st, c) == []
  {}

  /** The head of a branch: an OP_ALT is the end of the branch before it. */
  lemma {:induction false} HeadStep(m: Machine, st: State, c: Byte)
    requires m.tables.Sized()
    requires At(m.code, st.offset) == OP_ALT || At(m.code, st.offset) >= OP_BRA
    ensures At(m.code, st.offset) == OP_ALT ==> Active(m, st) == [State(SkipAlts(m.code, st.offset), 0)]
    ensures At(m.code, st.offset) != OP_ALT ==> Active(m, st) == Branches(m.code, st.offset)
    ensures New(m, st, c) == []
  {}

  lemma {:induction false} BraZeroStep(m: Machine, st: State, c: Byte)
    requires m.tables.Sized() && (At(m.code, st.offset) == OP_BRAZERO || At(m.code, st.offset) == OP_BRAMINZERO)
    ensures Active(m, st) == [State(st.offset + 1, 0), State(SkipAlts(m.code, st.offset + 1) + 3, 0)]
    ensures New(m, st, c) == []
  {}
}
