/** What one state of the DFA matcher adds to the two state lists, opcode by opcode,
    and reachability over those additions. */
module PcreDfaMachine {
  import opened Basics
  import opened PcreBytecode

  const NEWLINE: Byte := 10
  const CTYPE_SPACE: Byte := 0x01
  const CTYPE_DIGIT: Byte := 0x04
  const CTYPE_WORD: Byte := 0x10

  /** Character tables: lower-casing, case-flipping and type bits. */
  datatype Tables = Tables(lcc: seq<Byte>, fcc: seq<Byte>, ctypes: seq<Byte>) {
    /** Flipping the case is what separates two characters with the same lower case. */
    ghost predicate Valid() {
      && Sized()
      && forall a: Byte, b: Byte :: lcc[a] == lcc[b] <==> (a == b || a == fcc[b])
    }
    ghost predicate Sized() { |lcc| == |fcc| == |ctypes| == 256 }
  }

  datatype Machine = Machine(code: seq<Byte>, endKet: nat, ims: Ims, tables: Tables)

  datatype State = State(offset: nat, count: nat)

  // ------------------------------------------------------------ reading code

  function At(code: seq<Byte>, i: int): Byte {
    if 0 <= i < |code| then code[i] else OP_END
  }

  /** GET / GET2. */
  function Get(code: seq<Byte>, i: int): (v: nat) {
    At(code, i) * 256 + At(code, i + 1)
  }

  function Pow2(k: int): int
    requires 0 <= k < 8
  {
    [1, 2, 4, 8, 16, 32, 64, 128][k]
  }

  predicate HasBit(b: Byte, k: int)
    requires 0 <= k < 8
  {
    (b / Pow2(k)) % 2 == 1
  }

  /** `ctypes[c] & toptable1[t]`, where the mask is a single bit or none. */
  function TypeBits(tables: Tables, t: Byte, c: Byte): Byte
    requires tables.Sized()
  {
    var ct := tables.ctypes[c];
    if t == OP_NOT_DIGIT || t == OP_DIGIT then (if HasBit(ct, 2) then CTYPE_DIGIT else 0)
    else if t == OP_NOT_WHITESPACE || t == OP_WHITESPACE then (if HasBit(ct, 0) then CTYPE_SPACE else 0)
    else if t == OP_NOT_WORDCHAR || t == OP_WORDCHAR then (if HasBit(ct, 4) then CTYPE_WORD else 0)
    else 0
  }

  /** `toptable2`. */
  function TypeFlip(t: Byte): Byte {
    if t == OP_NOT_DIGIT then CTYPE_DIGIT
    else if t == OP_NOT_WHITESPACE then CTYPE_SPACE
    else if t == OP_NOT_WORDCHAR then CTYPE_WORD
    else if t == OP_ANY then 1
    else 0
  }

  predicate TypeTest(ims: Ims, tables: Tables, t: Byte, c: Byte)
    requires tables.Sized()
  {
    && (t != OP_ANY || c != NEWLINE || ims.dotall)
    && TypeBits(tables, t, c) != TypeFlip(t)
  }

  /** The test of the repeated literal opcodes; `caseless` says whether the flipped character counts too. */
  predicate LitTest(tables: Tables, caseless: bool, d: Byte, c: Byte)
    requires tables.Sized()
  {
    c == d || (caseless && c == tables.fcc[d])
  }

  predicate ClassTest(code: seq<Byte>, o: int, c: Byte) {
    HasBit(At(code, o + 1 + c / 8), c % 8)
  }

  // ------------------------------------------------------------ additions

  /** Following the links from the head at `o`: the first offset that is not an OP_ALT. */
  ghost function SkipAlts(code: seq<Byte>, o: nat): nat
    decreases |code| - o
  {
    var n := o + Get(code, o + 1);
    if n <= o || n >= |code| || code[n] != OP_ALT then n else SkipAlts(code, n)
  }

  /** The first states of the branches headed at `o` and after. */
  ghost function Branches(code: seq<Byte>, o: nat): seq<State>
    decreases |code| - o
  {
    var n := o + Get(code, o + 1);
    [State(o + 3, 0)] +
    if n <= o || n >= |code| || code[n] != OP_ALT then [] else Branches(code, n)
  }

  ghost predicate IsStarOp(op: Byte) { 24 <= op <= 25 || 33 <= op <= 34 }
  ghost predicate IsPlusOp(op: Byte) { 26 <= op <= 27 || 35 <= op <= 36 }
  ghost predicate IsQueryOp(op: Byte) { 28 <= op <= 29 || 37 <= op <= 38 }
  ghost predicate IsCountOp(op: Byte) { 30 <= op <= 32 || 39 <= op <= 41 }
  ghost predicate IsTypeOp(op: Byte) { OP_NOT_DIGIT <= op <= OP_WORDCHAR }
  ghost predicate IsClassOp(op: Byte) { op == OP_CLASS || op == OP_NCLASS }
  predicate IsKetOp(op: Byte) { OP_KET <= op <= OP_KETRMIN }

  /** States added to the active list when `st` is acted on (ADD_ACTIVE), in order. */
  ghost function Active(m: Machine, st: State): seq<State> {
    var o, n, code := st.offset, st.count, m.code;
    var op := At(code, o);
    if IsKetOp(op) then
      if o == m.endKet then []
      else [State(o + 3, 0)] +
           (if op != OP_KET && o >= Get(code, o + 1) then [State(o - Get(code, o + 1), 0)] else [])
    else if op == OP_ALT then [State(SkipAlts(code, o), 0)]
    else if op >= OP_BRA then Branches(code, o)
    else if op == OP_BRAZERO || op == OP_BRAMINZERO then
      [State(o + 1, 0), State(SkipAlts(code, o + 1) + 3, 0)]
    else if IsPlusOp(op) || 44 <= op <= 45 then (if n > 0 then [State(o + 2, 0)] else [])
    else if IsStarOp(op) || IsQueryOp(op) || 42 <= op <= 43 || 46 <= op <= 47 then [State(o + 2, 0)]
    else if IsCountOp(op) || 48 <= op <= 50 then
      (if op == OP_EXACT || op == OP_NOTEXACT || op == OP_TYPEEXACT then [] else [State(o + 4, 0)])
    else if IsClassOp(op) then
      var e := At(code, o + 33);
      if 51 <= e <= 52 || 55 <= e <= 56 then [State(o + 34, 0)]
      else if 53 <= e <= 54 then (if n > 0 then [State(o + 34, 0)] else [])
      else if 57 <= e <= 58 then (if n >= Get(code, o + 34) then [State(o + 38, 0)] else [])
      else []
    else []
  }

  /** States added to the new list when `st` meets the subject character `c` (ADD_NEW). */
  ghost function New(m: Machine, st: State, c: Byte): seq<State>
    requires m.tables.Sized()
  {
    var o, n, code := st.offset, st.count, m.code;
    var op := At(code, o);
    var tab := m.tables;
    if op == OP_ANY then (if c != NEWLINE || m.ims.dotall then [State(o + 1, 0)] else [])
    else if IsTypeOp(op) then (if TypeBits(tab, op, c) != TypeFlip(op) then [State(o + 1, 0)] else [])
    else if op == OP_CHAR then (if c == At(code, o + 1) then [State(o + 2, 0)] else [])
    else if op == OP_CHARNC then (if tab.lcc[c] == tab.lcc[At(code, o + 1)] then [State(o + 2, 0)] else [])
    else if op == OP_NOT then
      (if !LitTest(tab, m.ims.caseless, At(code, o + 1), c) then [State(o + 2, 0)] else [])
    else if IsPlusOp(op) then
      (if LitTest(tab, m.ims.caseless, At(code, o + 1), c) == (op < OP_NOTSTAR) then [State(o, n + 1)] else [])
    else if IsQueryOp(op) then
      // the option word as a whole, not its caseless bit, decides here
      (if LitTest(tab, m.ims.Nonzero(), At(code, o + 1), c) == (op < OP_NOTSTAR) then [State(o + 2, 0)] else [])
    else if IsStarOp(op) then
      (if LitTest(tab, m.ims.Nonzero(), At(code, o + 1), c) == (op < OP_NOTSTAR) then [State(o, 0)] else [])
    else if IsCountOp(op) then
      (if LitTest(tab, m.ims.caseless, At(code, o + 3), c) == (op < OP_NOTSTAR) then
         [if n + 1 >= Get(code, o + 1) then State(o + 4, 0) else State(o, n + 1)]
       else [])
    else if 44 <= op <= 45 then (if TypeTest(m.ims, tab, At(code, o + 1), c) then [State(o, n + 1)] else [])
    else if 46 <= op <= 47 then (if TypeTest(m.ims, tab, At(code, o + 1), c) then [State(o + 2, 0)] else [])
    else if 42 <= op <= 43 then (if TypeTest(m.ims, tab, At(code, o + 1), c) then [State(o, 0)] else [])
    else if 48 <= op <= 50 then
      (if TypeTest(m.ims, tab, At(code, o + 3), c) then
         [if n + 1 >= Get(code, o + 1) then State(o + 4, 0) else State(o, n + 1)]
       else [])
    else if IsClassOp(op) && ClassTest(code, o, c) then
      var e := At(code, o + 33);
      if 51 <= e <= 52 then [State(o, 0)]
      else if 53 <= e <= 54 then [State(o, n + 1)]
      else if 55 <= e <= 56 then [State(o + 34, 0)]
      else if 57 <= e <= 58 then
        [if n + 1 >= Get(code, o + 36) then State(o + 38, 0) else State(o, n + 1)]
      else [State(o + 33, 0)]
    else []
  }

  // ------------------------------------------------------------ reachability

  /** One step: an addition to the active list stays at its subject position, one to
      the new list moves one character on. */
  ghost predicate Step(m: Machine, s: seq<Byte>, a: State, i: nat, b: State, j: nat)
    requires m.tables.Sized()
  {
    (j == i && b in Active(m, a)) || (i < |s| && j == i + 1 && b in New(m, a, s[i]))
  }

  /** A path of exactly `k` steps. */
  ghost predicate Path(m: Machine, s: seq<Byte>, k: nat, a: State, i: nat, b: State, j: nat)
    requires m.tables.Sized()
  {
    if k == 0 then a == b && i == j
    else exists c, h: nat :: Step(m, s, a, i, c, h) && Path(m, s, k - 1, c, h, b, j)
  }

  ghost predicate Reaches(m: Machine, s: seq<Byte>, a: State, i: nat, b: State, j: nat)
    requires m.tables.Sized()
  {
    exists k: nat :: Path(m, s, k, a, i, b, j)
  }
}
