/** The state vectors of the matcher, and the action on one active state. */
module PcreDfaState {
  import opened Basics
  import opened PcreBytecode
  import opened PcreDfaMachine
  import opened PcreDfaSteps
  import opened PcreDfaOffsets

  /** One half of the workspace: a vector of state blocks of fixed size, filled from the left. */
  class StateList {
    const blocks: array<State>
    var count: nat

    constructor (limit: nat)
      ensures fresh(this) && fresh(blocks) && blocks.Length == limit && count == 0
    {
      blocks := new State[limit](_ => State(0, 0));
      count := 0;
    }

    ghost predicate Valid()
      reads this
    {
      count <= blocks.Length
    }

    ghost function Items(): (items: seq<State>)
      requires Valid()
      reads this, blocks
      ensures |items| == count
    {
      blocks[..count]
    }

    /** ADD_ACTIVE and ADD_NEW: `ok` is false where the matcher gives up for want of space. */
    method Add(x: State) returns (ok: bool)
      requires Valid()
      modifies this, blocks
      ensures Valid()
      ensures ok == (old(count) < blocks.Length)
      ensures Items() == if ok then old(Items()) + [x] else old(Items())
    {
      ok := count < blocks.Length;
      if ok {
        blocks[count] := x;
        count := count + 1;
      }
    }
  }

  /** Everything fits, or the list that overflowed was full. */
  twostate predicate Appended(list: StateList, xs: seq<State>, ok: bool)
    requires old(list.Valid()) && list.Valid()
    reads list, list.blocks
  {
    && (ok ==> list.Items() == old(list.Items()) + xs)
    && (!ok ==> old(list.count) + |xs| > list.blocks.Length)
  }

  lemma {:induction false} NextBranch(code: seq<Byte>, k: nat)
    requires ChainOk(code, k)
    ensures var next := k + Get(code, k + 1);
            && k < next < |code|
            && Branches(code, k) == [State(k + 3, 0)] + (if code[next] == OP_ALT then Branches(code, next) else [])
            && SkipAlts(code, k) == (if code[next] == OP_ALT then SkipAlts(code, next) else next)
            && (code[next] == OP_ALT ==> ChainOk(code, next))
  {
    hide Get;
  }

  lemma {:induction false} Regroup<T>(a: seq<T>, x: T, b: seq<T>)
    ensures a + ([x] + b) == (a + [x]) + b
  {}

  /** Push the first state of every branch of the bracket at `o`. */
  method AddBranches(code: seq<Byte>, o: nat, active: StateList) returns (ok: bool)
    requires ChainOk(code, o) && active.Valid()
    modifies active, active.blocks
    ensures active.Valid()
    ensures Appended(active, Branches(code, o), ok)
  {
    hide Get, Branches, ChainOk;
    var k, more := o, true;
    ghost var pushed: seq<State> := [];
    ok := true;
    NextBranch(code, o);
    while more
      invariant active.Valid() && active.Items() == old(active.Items()) + pushed && ok
      invariant k <= |code|
      invariant more ==> ChainOk(code, k) && pushed + Branches(code, k) == Branches(code, o)
      invariant !more ==> pushed == Branches(code, o)
      decreases more, |code| - k
    {
      NextBranch(code, k);
      Regroup(pushed, State(k + 3, 0), Branches(code, k)[1..]);
      Regroup(old(active.Items()) + pushed, State(k + 3, 0), []);
      ok := active.Add(State(k + 3, 0));
      if !ok { return; }
      pushed := pushed + [State(k + 3, 0)];
      k := k + Get(code, k + 1);
      more := code[k] == OP_ALT;
    }
  }

  /** Follow the links from the head at `o` to the bracket's OP_KET. */
  method FindKet(code: seq<Byte>, o: nat) returns (k: nat)
    requires ChainOk(code, o)
    ensures k == SkipAlts(code, o)
  {
    hide Get, SkipAlts, ChainOk;
    NextBranch(code, o);
    k := o + Get(code, o + 1);
    while code[k] == OP_ALT
      invariant k < |code|
      invariant SkipAlts(code, o) == (if code[k] == OP_ALT then SkipAlts(code, k) else k)
      invariant code[k] == OP_ALT ==> ChainOk(code, k)
      decreases |code| - k
    {
      NextBranch(code, k);
      k := k + Get(code, k + 1);
    }
  }

  method Push2(list: StateList, x: State, y: State) returns (ok: bool)
    requires list.Valid()
    modifies list, list.blocks
    ensures list.Valid() && Appended(list, [x, y], ok)
  {
    ok := list.Add(x);
    if ok {
      ok := list.Add(y);
    }
  }

  /** Brackets: only the active list grows. */
  method ActOnBracket(m: Machine, st: State, active: StateList) returns (ok: bool)
    requires m.tables.Sized() && Readable(m.code, st.offset) && active.Valid()
    requires m.code[st.offset] >= OP_ALT && st.offset != m.endKet
    modifies active, active.blocks
    ensures active.Valid() && Appended(active, Active(m, st), ok)
  {
    hide Get, Branches, SkipAlts, New;
    var op, o := m.code[st.offset], st.offset;
    if IsKetOp(op) {
      KetStep(m, st, 0);
      if op == OP_KET {
        ok := active.Add(State(o + 3, 0));
      } else {
        ok := Push2(active, State(o + 3, 0), State(o - Get(m.code, o + 1), 0));
      }
    } else if op == OP_BRAZERO || op == OP_BRAMINZERO {
      BraZeroStep(m, st, 0);
      var ket := FindKet(m.code, o + 1);
      ok := Push2(active, State(o + 1, 0), State(ket + 3, 0));
    } else if op == OP_ALT {
      HeadStep(m, st, 0);
      var ket := FindKet(m.code, o);
      ok := active.Add(State(ket, 0));
    } else {
      HeadStep(m, st, 0);
      ok := AddBranches(m.code, o, active);
    }
  }

  /** Single characters, types and their repeats: whether the item may be left without
      looking at the subject, and whether and where `c` leads on (`c` is -1 at its end). */
  method ActOnRepeat(m: Machine, st: State, c: int) returns (skip: bool, leave: nat, passes: bool, next: State)
    requires m.tables.Sized() && Readable(m.code, st.offset) && -1 <= c < 256
    requires OP_STAR <= m.code[st.offset] <= OP_TYPEEXACT
    ensures Active(m, st) == if skip then [State(leave, 0)] else []
    ensures c >= 0 ==> New(m, st, c) == if passes then [next] else []
    ensures c < 0 ==> !passes
  {
    hide Get, Branches, SkipAlts, TypeTest, LitTest;
    var o, count, op := st.offset, st.count, m.code[st.offset];
    var base := if op < OP_NOTSTAR then OP_STAR else if op < OP_TYPESTAR then OP_NOTSTAR else OP_TYPESTAR;
    var counted := op >= base + 6;
    leave := if counted then o + 4 else o + 2;
    var d := if counted then m.code[o + 3] else m.code[o + 1];
    passes := false;
    if c >= 0 {
      if base == OP_TYPESTAR {
        passes := TypeTest(m.ims, m.tables, d, c);
      } else {
        var caseless := if op == base || op == base + 1 || op == base + 4 || op == base + 5
                        then m.ims.Nonzero() else m.ims.caseless;
        passes := LitTest(m.tables, caseless, d, c) == (op < OP_NOTSTAR);
      }
    }
    if op == base || op == base + 1 {
      skip, next := true, State(o, 0);
    } else if op == base + 2 || op == base + 3 {
      skip, next := count > 0, State(o, count + 1);
    } else if op == base + 4 || op == base + 5 {
      skip, next := true, State(leave, 0);
    } else {
      skip := op != base + 8;
      count := count + 1;
      next := if count >= Get(m.code, o + 1) then State(leave, 0) else State(o, count);
    }
  }

  method ActOnClass(m: Machine, st: State, c: int) returns (skip: bool, leave: nat, passes: bool, next: State)
    requires m.tables.Sized() && Readable(m.code, st.offset) && -1 <= c < 256
    requires IsClassOp(m.code[st.offset])
    ensures Active(m, st) == if skip then [State(leave, 0)] else []
    ensures c >= 0 ==> New(m, st, c) == if passes then [next] else []
    ensures c < 0 ==> !passes
  {
    hide Get, Branches, SkipAlts, ClassTest;
    var o, count := st.offset, st.count;
    passes := c >= 0 && ClassTest(m.code, o, c);
    var e := m.code[o + 33];
    if e == OP_CRSTAR || e == OP_CRSTAR + 1 {
      skip, leave, next := true, o + 34, State(o, 0);
    } else if e == OP_CRPLUS || e == OP_CRPLUS + 1 {
      skip, leave, next := count > 0, o + 34, State(o, count + 1);
    } else if e == OP_CRQUERY || e == OP_CRQUERY + 1 {
      skip, leave, next := true, o + 34, State(o + 34, 0);
    } else if e == OP_CRRANGE || e == OP_CRMINRANGE {
      skip, leave := count >= Get(m.code, o + 34), o + 38;
      count := count + 1;
      next := if count >= Get(m.code, o + 36) then State(o + 38, 0) else State(o, count);
    } else {
      skip, leave, next := false, 0, State(o + 33, 0);
    }
  }

  method ActOnOne(m: Machine, st: State, c: int) returns (passes: bool, next: State)
    requires m.tables.Sized() && Readable(m.code, st.offset) && -1 <= c < 256
    requires m.code[st.offset] < OP_STAR
    ensures Active(m, st) == []
    ensures c >= 0 ==> New(m, st, c) == if passes then [next] else []
    ensures c < 0 ==> !passes
  {
    hide Get, Branches, SkipAlts, LitTest;
    var o, op := st.offset, m.code[st.offset];
    if op <= OP_ANY {
      next := State(o + 1, 0);
      passes := c >= 0 && (if op == OP_ANY then c != NEWLINE || m.ims.dotall
                           else TypeBits(m.tables, op, c) != TypeFlip(op));
    } else {
      next := State(o + 2, 0);
      var d := m.code[o + 1];
      passes := c >= 0 && (if op == OP_CHAR then c == d
                           else if op == OP_CHARNC then m.tables.lcc[c] == m.tables.lcc[d]
                           else !LitTest(m.tables, m.ims.caseless, d, c));
    }
  }

  /** Act on one state that is not the end state: the two lists grow by what its opcode adds. */
  method Act(m: Machine, st: State, c: int, active: StateList, newer: StateList) returns (ok: bool)
    requires m.tables.Sized() && Readable(m.code, st.offset) && -1 <= c < 256 && st.offset != m.endKet
    requires active.Valid() && newer.Valid() && active != newer && active.blocks != newer.blocks
    modifies active, active.blocks, newer, newer.blocks
    ensures active.Valid() && newer.Valid()
    ensures ok ==> active.Items() == old(active.Items()) + Active(m, st)
    ensures ok ==> newer.Items() == old(newer.Items()) + (if c < 0 then [] else New(m, st, c))
    ensures !ok ==> || old(active.count) + |Active(m, st)| > active.blocks.Length
                    || (c >= 0 && old(newer.count) + |New(m, st, c)| > newer.blocks.Length)
  {
    var op := m.code[st.offset];
    if op >= OP_ALT {
      BracketAddsNoNew(m, st, if c < 0 then 0 else c);
      hide Active, New, Readable;
      ok := ActOnBracket(m, st, active);
    } else {
      hide Active, New;
      var skip, leave, passes, next := false, 0, false, st;
      if op < OP_STAR {
        passes, next := ActOnOne(m, st, c);
      } else if op <= OP_TYPEEXACT {
        skip, leave, passes, next := ActOnRepeat(m, st, c);
      } else {
        skip, leave, passes, next := ActOnClass(m, st, c);
      }
      ok := true;
      if skip {
        ok := active.Add(State(leave, 0));
      }
      if ok && passes {
        ok := newer.Add(next);
      }
    }
  }

  lemma {:induction false} BracketAddsNoNew(m: Machine, st: State, c: Byte)
    requires m.tables.Sized() && At(m.code, st.offset) >= OP_ALT
    ensures New(m, st, c) == []
  {}
}
