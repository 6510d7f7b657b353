/** The language of a pattern, without reference to its compiled form. Two readings of a
    repeated test exist: the documented one, and the one the DFA opcodes implement. */
module PcreLanguage {
  import opened Basics
  import opened PcreBytecode
  import opened PcreDfaMachine

  /** `documented` chooses the reading of tests and counts. */
  datatype Reading = Reading(documented: bool, ims: Ims, tables: Tables)

  /** Does character `c` pass `a` when repeated as `r`? */
  ghost predicate Passes(rd: Reading, a: Atom, r: Rep, c: Byte)
    requires rd.tables.Sized() && AtomOk(a)
  {
    var caseless := rd.ims.caseless || (!rd.documented && (r.Star? || r.Query?) && rd.ims.Nonzero());
    match a
    case Lit(d) => LitTest(rd.tables, caseless, d, c)
    case NotLit(d) => !LitTest(rd.tables, caseless, d, c)
    case Type(t) => TypeTest(rd.ims, rd.tables, t, c)
    case Class(bits, _) => HasBit(bits[c / 8], c % 8)
  }

  /** May the test be repeated exactly `k` times? */
  ghost predicate Counts(documented: bool, r: Rep, k: nat) {
    match r
    case One => k == 1
    case Star(_) => true
    case Plus(_) => k >= 1
    case Query(_) => k <= 1
    case Upto(_, n) => k <= n
    case Exact(n) => k == n
    case Range(_, min, max) =>
      if max != 0 then min <= k <= max
      else if documented then min <= k
      else k == 1 || (k == 0 && min == 0)
  }

  /** `s[i..j]` is a word of `re`. */
  ghost predicate Matches(rd: Reading, re: Re, s: seq<Byte>, i: nat, j: nat)
    requires rd.tables.Sized() && ReOk(re)
    decreases re, 0, 0
  {
    && i <= j <= |s|
    && match re
       case Empty => i == j
       case Chr(a, r) => Counts(rd.documented, r, j - i) && forall k :: i <= k < j ==> Passes(rd, a, r, s[k])
       case Cat(l, r) => exists h: nat :: Matches(rd, l, s, i, h) && Matches(rd, r, s, h, j)
       case Group(alts, kind, _) =>
         || (kind.optional && i == j)
         || if kind.repeated then exists n: nat :: Iterated(rd, alts, s, n, i, j) else MatchesAlts(rd, alts, s, i, j)
  }

  ghost predicate MatchesAlts(rd: Reading, alts: Alts, s: seq<Byte>, i: nat, j: nat)
    requires rd.tables.Sized() && AltsOk(alts)
    decreases alts, 0, 0
  {
    Matches(rd, alts.re, s, i, j) || (alts.More? && MatchesAlts(rd, alts.rest, s, i, j))
  }

  /** `n + 1` consecutive words of the alternatives. */
  ghost predicate Iterated(rd: Reading, alts: Alts, s: seq<Byte>, n: nat, i: nat, j: nat)
    requires rd.tables.Sized() && AltsOk(alts)
    decreases alts, 1, n
  {
    if n == 0 then MatchesAlts(rd, alts, s, i, j)
    else exists h: nat :: MatchesAlts(rd, alts, s, i, h) && Iterated(rd, alts, s, n - 1, h, j)
  }
}
