/** The compiled form of a pattern: opcode bytes, two-byte links, and the
    encoder that lays a pattern out in them (LINK_SIZE is 2). */
module PcreBytecode {
  import opened Basics

  // Opcode numbers (only those of the modelled fragment).
  const OP_END: Byte := 0
  const OP_NOT_DIGIT: Byte := 5
  const OP_DIGIT: Byte := 6
  const OP_NOT_WHITESPACE: Byte := 7
  const OP_WHITESPACE: Byte := 8
  const OP_NOT_WORDCHAR: Byte := 9
  const OP_WORDCHAR: Byte := 10
  const OP_ANY: Byte := 11
  const OP_CHAR: Byte := 21
  const OP_CHARNC: Byte := 22
  const OP_NOT: Byte := 23
  const OP_STAR: Byte := 24
  const OP_EXACT: Byte := 32
  const OP_NOTSTAR: Byte := 33
  const OP_NOTEXACT: Byte := 41
  const OP_TYPESTAR: Byte := 42
  const OP_TYPEEXACT: Byte := 50
  const OP_CRSTAR: Byte := 51
  const OP_CRPLUS: Byte := 53
  const OP_CRQUERY: Byte := 55
  const OP_CRRANGE: Byte := 57
  const OP_CRMINRANGE: Byte := 58
  const OP_CLASS: Byte := 59
  const OP_NCLASS: Byte := 60
  const OP_ALT: Byte := 65
  const OP_KET: Byte := 66
  const OP_KETRMAX: Byte := 67
  const OP_KETRMIN: Byte := 68
  const OP_BRAZERO: Byte := 77
  const OP_BRAMINZERO: Byte := 78
  const OP_BRA: Byte := 80
  const EXTRACT_BASIC_MAX := 100

  // ---------------------------------------------------------------- patterns

  /** One single-character test. `Type` carries its opcode, OP_NOT_DIGIT to OP_ANY;
      `Class` carries its 32-byte bitmap and whether the bitmap came from a negated class. */
  datatype Atom =
    | Lit(c: Byte)
    | NotLit(c: Byte)
    | Type(t: Byte)
    | Class(bits: seq<Byte>, negated: bool)

  /** How often a test is repeated; `lazy` picks the minimizing opcode. */
  datatype Rep =
    | One
    | Star(lazy: bool)
    | Plus(lazy: bool)
    | Query(lazy: bool)
    | Upto(lazy: bool, n: nat)
    | Exact(n: nat)
    | Range(lazy: bool, min: nat, max: nat)   // classes only; max 0 encodes "no maximum"

  /** Decorations of a bracket: OP_BRAZERO before it, OP_KETRMAX at its end. */
  datatype GroupKind = GroupKind(optional: bool, repeated: bool, lazy: bool)

  datatype Re =
    | Empty
    | Chr(atom: Atom, rep: Rep)
    | Cat(left: Re, right: Re)
    | Group(alts: Alts, kind: GroupKind, capture: nat)

  datatype Alts = Last(re: Re) | More(re: Re, rest: Alts)

  /** The option bits that can change during matching. */
  datatype Ims = Ims(caseless: bool, multiline: bool, dotall: bool) {
    predicate Nonzero() { caseless || multiline || dotall }
  }

  ghost predicate AtomOk(a: Atom) {
    match a
    case Lit(_) => true
    case NotLit(_) => true
    case Type(t) => OP_NOT_DIGIT <= t <= OP_ANY
    case Class(bits, _) => |bits| == 32
  }

  /** What the compiler can emit: two-byte counts, no empty maximum, ranges only on classes. */
  ghost predicate RepOk(a: Atom, r: Rep) {
    match r
    case Upto(_, n) => 1 <= n < 0x10000 && !a.Class?
    case Exact(n) => 1 <= n < 0x10000 && !a.Class?
    case Range(_, min, max) => a.Class? && min < 0x10000 && max < 0x10000 && (max == 0 || min <= max)
    case _ => true
  }

  ghost predicate ReOk(re: Re) {
    match re
    case Empty => true
    case Chr(a, r) => AtomOk(a) && RepOk(a, r)
    case Cat(l, r) => ReOk(l) && ReOk(r)
    case Group(alts, _, n) => n <= EXTRACT_BASIC_MAX && AltsOk(alts)
  }

  ghost predicate AltsOk(alts: Alts) {
    match alts
    case Last(re) => ReOk(re)
    case More(re, rest) => ReOk(re) && AltsOk(rest)
  }

  // ---------------------------------------------------------------- encoding

  /** PUT / PUT2: a 16-bit value, high byte first. */
  function Put(v: int): (bs: seq<Byte>)
    ensures |bs| == 2
  {
    [(v / 256) % 256, v % 256]
  }

  function LazyBit(lazy: bool): int { if lazy then 1 else 0 }

  /** The single-character repeat opcodes, relative to the STAR of their family. */
  function RepeatCode(base: int, r: Rep): (bs: seq<Byte>)
    requires base == OP_STAR || base == OP_NOTSTAR || base == OP_TYPESTAR
  {
    match r
    case Star(l) => [base + LazyBit(l)]
    case Plus(l) => [base + 2 + LazyBit(l)]
    case Query(l) => [base + 4 + LazyBit(l)]
    case Upto(l, n) => [base + 6 + LazyBit(l)] + Put(n)
    case Exact(n) => [base + 8] + Put(n)
    case One => []
    case Range(_, _, _) => []
  }

  /** The repeat opcodes that follow a class. */
  function ClassRepeatCode(r: Rep): (bs: seq<Byte>) {
    match r
    case Star(l) => [OP_CRSTAR + LazyBit(l)]
    case Plus(l) => [OP_CRPLUS + LazyBit(l)]
    case Query(l) => [OP_CRQUERY + LazyBit(l)]
    case Range(l, min, max) => [OP_CRRANGE + LazyBit(l)] + Put(min) + Put(max)
    case _ => []
  }

  function ChrCode(ims: Ims, a: Atom, r: Rep): seq<Byte> {
    match a
    case Lit(c) =>
      if r.One? then [if ims.caseless then OP_CHARNC else OP_CHAR, c] else RepeatCode(OP_STAR, r) + [c]
    case NotLit(c) =>
      if r.One? then [OP_NOT, c] else RepeatCode(OP_NOTSTAR, r) + [c]
    case Type(t) =>
      if r.One? then [t] else RepeatCode(OP_TYPESTAR, r) + [t]
    case Class(bits, negated) =>
      [if negated then OP_NCLASS else OP_CLASS] + bits + ClassRepeatCode(r)
  }

  function Code(ims: Ims, re: Re): seq<Byte>
    requires ReOk(re)
    decreases re, 0
  {
    match re
    case Empty => []
    case Chr(a, r) => ChrCode(ims, a, r)
    case Cat(l, r) => Code(ims, l) + Code(ims, r)
    case Group(alts, kind, n) =>
      (if kind.optional then [OP_BRAZERO + LazyBit(kind.lazy)] else []) + GroupCode(ims, alts, kind, n)
  }

  /** A bracket without its OP_BRAZERO; the final link leads back to its start. */
  function GroupCode(ims: Ims, alts: Alts, kind: GroupKind, n: nat): (bs: seq<Byte>)
    requires AltsOk(alts) && n <= EXTRACT_BASIC_MAX
    decreases alts, 2
  {
    var body := AltsCode(ims, alts, OP_BRA + n);
    body + [KetOp(kind)] + Put(|body|)
  }

  function KetOp(kind: GroupKind): Byte {
    if !kind.repeated then OP_KET else OP_KETRMAX + LazyBit(kind.lazy)
  }

  /** The branches of a bracket: the first is headed by the bracket opcode, the others by
      OP_ALT, and each head links to the next head or to the closing OP_KET. */
  function AltsCode(ims: Ims, alts: Alts, op: Byte): (bs: seq<Byte>)
    requires AltsOk(alts)
    ensures |bs| >= 3
    decreases alts, 1
  {
    var first := Code(ims, alts.re);
    [op] + Put(|first| + 3) + first + AltsTail(ims, alts)
  }

  function AltsTail(ims: Ims, alts: Alts): seq<Byte>
    requires AltsOk(alts)
    decreases alts, 0
  {
    if alts.Last? then [] else AltsCode(ims, alts.rest, OP_ALT)
  }

  /** A whole pattern: an outer bracket, then OP_END. */
  function Pattern(ims: Ims, alts: Alts): seq<Byte>
    requires AltsOk(alts)
  {
    GroupCode(ims, alts, GroupKind(false, false, false), 0) + [OP_END]
  }

  /** The offset of the outer bracket's OP_KET: the end state. */
  ghost function EndKet(ims: Ims, alts: Alts): nat
    requires AltsOk(alts)
  {
    |AltsCode(ims, alts, OP_BRA)|
  }

  /** The compiler's size limit for two-byte links. */
  ghost predicate Fits(ims: Ims, alts: Alts)
    requires AltsOk(alts)
  {
    |Pattern(ims, alts)| <= 0x10000
  }
}
