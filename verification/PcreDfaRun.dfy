/** Runs of a compiled pattern, described without the state vectors: which states are
    live at which subject position, and what a history of closed state sets covers. */
module PcreDfaRun {
  import opened Basics
  import opened PcreBytecode
  import opened PcreDfaMachine
  import opened PcreLanguage
  import opened PcreDfaSteps
  import opened PcreDfaLanguage
  import opened PcreDfaOffsets

  ghost predicate Compiled(m: Machine, alts: Alts) {
    && AltsOk(alts) && Fits(m.ims, alts)
    && m == PatternMachine(m.ims, m.tables, alts)
    && m.tables.Sized() && m.tables.Valid()
  }

  ghost function End(m: Machine): State { State(m.endKet, 0) }

  /** A state the matcher can hold: the start of an item, or the end state with count 0. */
  ghost predicate Sane(m: Machine, alts: Alts, st: State)
    requires AltsOk(alts)
  {
    st.offset in AltsOffsets(m.ims, alts, 0) || st == End(m)
  }

  ghost predicate AllSane(m: Machine, alts: Alts, sts: seq<State>)
    requires AltsOk(alts)
  {
    forall st :: st in sts ==> Sane(m, alts, st)
  }

  lemma {:induction false} SaneStep(m: Machine, alts: Alts, st: State, c: Byte)
    requires Compiled(m, alts) && Sane(m, alts, st)
    ensures Readable(m.code, st.offset) && st.offset < |m.code|
    ensures st.offset == m.endKet ==> st == End(m) && Active(m, st) == [] && New(m, st, c) == []
    ensures forall t :: t in Active(m, st) ==> Sane(m, alts, t) && t.count == 0
    ensures forall t :: t in New(m, st, c) ==> Sane(m, alts, t) && t.count <= st.count + 1
  {
    hide Tables.Valid, Active, New, Fits, AltsOffsets, PatternMachine;
    PatternPlaced(m.ims, m.tables, alts);
    assert PatternMachine(m.ims, m.tables, alts).endKet == EndKet(m.ims, alts) by { MachineEnd(m.ims, m.tables, alts); }
    if st.offset in AltsOffsets(m.ims, alts, 0) {
      AltsStay(m, alts, OP_BRA, 0, st, c);
    } else {
      EndReadable(m, alts);
      EndStep(m, st, c);
    }
  }

  lemma {:induction false} MachineEnd(ims: Ims, tables: Tables, alts: Alts)
    requires AltsOk(alts)
    ensures PatternMachine(ims, tables, alts).endKet == EndKet(ims, alts)
    ensures PatternMachine(ims, tables, alts).code == Pattern(ims, alts)
  {}

  lemma {:induction false} EndReadable(m: Machine, alts: Alts)
    requires Compiled(m, alts)
    ensures Readable(m.code, m.endKet) && Get(m.code, m.endKet + 1) == m.endKet
  {
    hide Tables.Valid, AltsCode;
    PatternPlaced(m.ims, m.tables, alts);
    var body := AltsCode(m.ims, alts, OP_BRA);
    assert m.code == body + [OP_KET] + Put(|body|) + [OP_END];
    assert Located(m.code, |body| + 1, Put(|body|)) by {
      assert m.code[|body| + 1..|body| + 3] == Put(|body|);
    }
    GetPut(m.code, |body| + 1, |body|);
  }

  lemma {:induction false} BranchesSane(m: Machine, alts: Alts)
    requires Compiled(m, alts)
    ensures AllSane(m, alts, Branches(m.code, 0))
    ensures forall t :: t in Branches(m.code, 0) ==> t.count == 0
    ensures ChainOk(m.code, 0) && SkipAlts(m.code, 0) == m.endKet
  {
    hide Tables.Valid, Branches, AltsOffsets, AltsCode;
    PatternPlaced(m.ims, m.tables, alts);
    ChainFollows(m, 0, alts, OP_BRA);
    SkipsToKet(m, 0, alts, OP_BRA);
    forall t | t in Branches(m.code, 0)
      ensures Sane(m, alts, t) && t.count == 0
    {
      BranchStarts(m, 0, alts, OP_BRA, t);
    }
  }

  // ------------------------------------------------------------ live states

  /** `b` can be reached at position `j` by a run that holds `init` at position `i`. */
  ghost predicate Live(m: Machine, s: seq<Byte>, init: seq<State>, i: nat, b: State, j: nat)
    requires m.tables.Sized()
  {
    exists a :: a in init && Reaches(m, s, a, i, b, j)
  }

  lemma {:induction false} PathAppend(m: Machine, s: seq<Byte>, k: nat, a: State, i: nat, b: State, j: nat, c: State,
                                      h: nat)
    requires m.tables.Sized() && Path(m, s, k, a, i, b, j) && Step(m, s, b, j, c, h)
    ensures Path(m, s, k + 1, a, i, c, h)
  {
    hide Step;
    if k == 0 {
      assert Path(m, s, 0, c, h, c, h);
    } else {
      var d, g: nat :| Step(m, s, a, i, d, g) && Path(m, s, k - 1, d, g, b, j);
      PathAppend(m, s, k - 1, d, g, b, j, c, h);
    }
  }

  lemma {:induction false} ReachesSelf(m: Machine, s: seq<Byte>, a: State, i: nat)
    requires m.tables.Sized()
    ensures Reaches(m, s, a, i, a, i)
  {
    assert Path(m, s, 0, a, i, a, i);
  }

  lemma {:induction false} ReachesStep(m: Machine, s: seq<Byte>, a: State, i: nat, b: State, j: nat, c: State, h: nat)
    requires m.tables.Sized() && Reaches(m, s, a, i, b, j) && Step(m, s, b, j, c, h)
    ensures Reaches(m, s, a, i, c, h)
  {
    hide Step, Path;
    var k: nat :| Path(m, s, k, a, i, b, j);
    PathAppend(m, s, k, a, i, b, j, c, h);
  }

  lemma {:induction false} PathJoin(m: Machine, s: seq<Byte>, k: nat, a: State, i: nat, b: State, j: nat, c: State,
                                    h: nat)
    requires m.tables.Sized() && Path(m, s, k, a, i, b, j) && Reaches(m, s, b, j, c, h)
    ensures Reaches(m, s, a, i, c, h)
  {
    hide Step;
    if k != 0 {
      var d, g: nat :| Step(m, s, a, i, d, g) && Path(m, s, k - 1, d, g, b, j);
      PathJoin(m, s, k - 1, d, g, b, j, c, h);
      var l: nat :| Path(m, s, l, d, g, c, h);
      assert Path(m, s, l + 1, a, i, c, h);
    }
  }

  lemma {:induction false} LiveJoin(m: Machine, s: seq<Byte>, init: seq<State>, i: nat, b: State, j: nat, c: State,
                                    h: nat)
    requires m.tables.Sized() && Live(m, s, init, i, b, j) && Reaches(m, s, b, j, c, h)
    ensures Live(m, s, init, i, c, h)
  {
    hide Path;
    var a :| a in init && Reaches(m, s, a, i, b, j);
    var k: nat :| Path(m, s, k, a, i, b, j);
    PathJoin(m, s, k, a, i, b, j, c, h);
  }

  lemma {:induction false} LiveStep(m: Machine, s: seq<Byte>, init: seq<State>, i: nat, b: State, j: nat, c: State,
                                    h: nat)
    requires m.tables.Sized() && Live(m, s, init, i, b, j) && Step(m, s, b, j, c, h)
    ensures Live(m, s, init, i, c, h)
  {
    hide Step, Reaches;
    var a :| a in init && Reaches(m, s, a, i, b, j);
    ReachesStep(m, s, a, i, b, j, c, h);
  }

  lemma {:induction false} PathForward(m: Machine, s: seq<Byte>, k: nat, a: State, i: nat, b: State, j: nat)
    requires m.tables.Sized() && Path(m, s, k, a, i, b, j)
    ensures i <= j && (i <= |s| ==> j <= |s|)
  {
    hide Active, New;
    if k > 0 {
      var d, g: nat :| Step(m, s, a, i, d, g) && Path(m, s, k - 1, d, g, b, j);
      PathForward(m, s, k - 1, d, g, b, j);
    }
  }

  // ------------------------------------------------------------ histories

  /** The set at each position is closed under additions to the active list. */
  ghost predicate ActiveClosed(m: Machine, set0: set<State>) {
    forall a, t :: a in set0 && t in Active(m, a) ==> t in set0
  }

  ghost predicate NewInto(m: Machine, set0: set<State>, c: Byte, set1: set<State>)
    requires m.tables.Sized()
  {
    forall a, t :: a in set0 && t in New(m, a, c) ==> t in set1
  }

  ghost function ToSet(xs: seq<State>): set<State> { set x | x in xs }

  /** Sets for the positions from `i` on; `next` is where the last of them leads. */
  ghost predicate Closed(m: Machine, s: seq<Byte>, i: nat, hist: seq<set<State>>, next: set<State>)
    requires m.tables.Sized()
  {
    && i + |hist| <= |s| + 1
    && (forall q :: 0 <= q < |hist| ==> ActiveClosed(m, hist[q]))
    && (forall q :: 0 <= q < |hist| && i + q < |s| ==>
          NewInto(m, hist[q], s[i + q], After(hist, q, next)))
  }

  ghost function After(hist: seq<set<State>>, q: nat, next: set<State>): set<State> {
    if q + 1 < |hist| then hist[q + 1] else next
  }

  /** A closed history holds every state its first set reaches within it; and if it leads
      nowhere more, that is every state reached at all. */
  lemma {:induction false} Covered(m: Machine, s: seq<Byte>, i0: nat, hist: seq<set<State>>, next: set<State>, k: nat,
                                   a: State, i: nat, b: State, j: nat)
    requires m.tables.Sized() && Closed(m, s, i0, hist, next) && Path(m, s, k, a, i, b, j)
    requires next == {} || j < i0 + |hist|
    requires i0 <= i < i0 + |hist| && a in hist[i - i0]
    ensures i0 <= j < i0 + |hist| && b in hist[j - i0]
    decreases k
  {
    hide Active, New;
    if k > 0 {
      var d, g: nat :| Step(m, s, a, i, d, g) && Path(m, s, k - 1, d, g, b, j);
      var q := i - i0;
      assert ActiveClosed(m, hist[q]);
      if g == i + 1 {
        assert i0 + q < |s| && d in New(m, a, s[i0 + q]);
        assert NewInto(m, hist[q], s[i0 + q], After(hist, q, next));
        assert d in After(hist, q, next);
        PathForward(m, s, k - 1, d, g, b, j);
        assert d in hist[g - i0];
      } else {
        assert g == i;
        assert d in Active(m, a);
        assert d in hist[q];
      }
      Covered(m, s, i0, hist, next, k - 1, d, g, b, j);
    }
  }

  lemma {:induction false} CoversLive(m: Machine, s: seq<Byte>, init: seq<State>, i0: nat, hist: seq<set<State>>,
                                      next: set<State>, b: State, j: nat)
    requires m.tables.Sized() && Closed(m, s, i0, hist, next) && hist != [] && ToSet(init) <= hist[0]
    requires Live(m, s, init, i0, b, j) && (next == {} || j < i0 + |hist|)
    ensures i0 <= j < i0 + |hist| && b in hist[j - i0]
  {
    hide Path, Active, New;
    var a :| a in init && Reaches(m, s, a, i0, b, j);
    var k: nat :| Path(m, s, k, a, i0, b, j);
    assert a in ToSet(init);
    Covered(m, s, i0, hist, next, k, a, i0, b, j);
  }

  // ------------------------------------------------------------ matches

  /** The positions where a run may stop with a match, in increasing order. */
  ghost predicate AllMatches(m: Machine, s: seq<Byte>, init: seq<State>, start: nat, notEmpty: bool, ends: seq<nat>)
    requires m.tables.Sized()
  {
    && Ascending(ends)
    && forall e: nat :: e in ends <==> Live(m, s, init, start, End(m), e) && (e > start || !notEmpty)
  }

  ghost predicate Ascending(xs: seq<nat>) {
    forall x, y :: 0 <= x < y < |xs| ==> xs[x] < xs[y]
  }

  /** `saved`, held at the end of the subject, stands for everything live there. */
  ghost predicate Stands(m: Machine, s: seq<Byte>, init: seq<State>, start: nat, saved: seq<State>)
    requires m.tables.Sized()
  {
    forall b :: Live(m, s, init, start, b, |s|) <==> Live(m, s, saved, |s|, b, |s|)
  }

  ghost function MaxCount(sts: seq<State>): (max: nat)
    ensures forall st :: st in sts ==> st.count <= max
  {
    if sts == [] then 0
    else
      var rest := MaxCount(sts[1..]);
      assert forall st :: st in sts ==> st == sts[0] || st in sts[1..];
      if sts[0].count > rest then sts[0].count else rest
  }
}
