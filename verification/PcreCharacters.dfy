/** Which characters pass a test, in terms of the case and type tables and of bits written as quotients. */
module PcreCharacters {
  import opened Basics
  import opened PcreBytecode
  import opened PcreDfaMachine
  import opened PcreLanguage
  import opened PcreReadings
  import opened PcreRepeats
  import opened PcreDfaTop

  /** The type escapes look at one bit of the type table each: 4 for digits, 1 for white space, 16 for word characters.
      A dot passes all but the newline, and that too under dotall. */
  lemma {:induction false} TypePasses(rd: Reading, r: Rep, c: Byte)
    requires rd.tables.Sized()
    ensures Passes(rd, Type(OP_DIGIT), r, c) <==> rd.tables.ctypes[c] / 4 % 2 == 1
    ensures Passes(rd, Type(OP_NOT_DIGIT), r, c) <==> rd.tables.ctypes[c] / 4 % 2 == 0
    ensures Passes(rd, Type(OP_WHITESPACE), r, c) <==> rd.tables.ctypes[c] % 2 == 1
    ensures Passes(rd, Type(OP_NOT_WHITESPACE), r, c) <==> rd.tables.ctypes[c] % 2 == 0
    ensures Passes(rd, Type(OP_WORDCHAR), r, c) <==> rd.tables.ctypes[c] / 16 % 2 == 1
    ensures Passes(rd, Type(OP_NOT_WORDCHAR), r, c) <==> rd.tables.ctypes[c] / 16 % 2 == 0
    ensures Passes(rd, Type(OP_ANY), r, c) <==> c != 10 || rd.ims.dotall
  {}

  /** Two to a power. */
  ghost function TwoTo(k: nat): (p: nat)
    ensures p > 0
  {
    if k == 0 then 1 else 2 * TwoTo(k - 1)
  }

  /** A class passes the characters whose bit is set: bit c % 8 of byte c / 8. */
  lemma {:induction false} ClassPasses(rd: Reading, bits: seq<Byte>, negated: bool, r: Rep, c: Byte)
    requires rd.tables.Sized() && |bits| == 32
    ensures Passes(rd, Class(bits, negated), r, c) <==> bits[c / 8] / TwoTo(c % 8) % 2 == 1
  {
    assert TwoTo(1) == 2 && TwoTo(2) == 4 && TwoTo(3) == 8;
    assert TwoTo(4) == 16 && TwoTo(5) == 2 * TwoTo(4) && TwoTo(6) == 2 * TwoTo(5) && TwoTo(7) == 2 * TwoTo(6);
  }

  /** A character passes itself, and its other case when that does not matter; as documented, that is when the option
      says so, but as coded for `*` and `?`, under any option. */
  lemma {:induction false} CharPasses(rd: Reading, d: Byte, r: Rep, c: Byte)
    requires rd.tables.Sized()
    ensures var either := rd.ims.caseless
                          || (!rd.documented && (r.Star? || r.Query?) && (rd.ims.multiline || rd.ims.dotall));
            && (Passes(rd, Lit(d), r, c) <==> c == d || (either && c == rd.tables.fcc[d]))
            && (Passes(rd, NotLit(d), r, c) <==> c != d && !(either && c == rd.tables.fcc[d]))
  {}

  /** The digits, on a table that marks them: a subject of digits is a word of the repeated digit test. */
  lemma {:induction false} DigitRun(rd: Reading, min: nat, bound: Bound, lazy: bool, s: seq<Byte>)
    requires rd.tables.Sized() && rd.documented && BoundsOk(min, bound) && Within(min, bound, |s|)
    ensures ReOk(RepeatedChar(Type(OP_DIGIT), min, bound, lazy))
    ensures Matches(rd, RepeatedChar(Type(OP_DIGIT), min, bound, lazy), s, 0, |s|)
            <==> forall k :: 0 <= k < |s| ==> rd.tables.ctypes[s[k]] / 4 % 2 == 1
  {
    hide Passes, Matches, RepeatedChar;
    RepeatedCharMeans(rd, Type(OP_DIGIT), min, bound, lazy, s, 0, |s|);
    forall k | 0 <= k < |s|
      ensures Passes(rd, Type(OP_DIGIT), One, s[k]) <==> rd.tables.ctypes[s[k]] / 4 % 2 == 1 {
      TypePasses(rd, One, s[k]);
    }
  }

  /** What a first byte and a required byte stand for: themselves, or either case. */
  lemma {:induction false} HintsMean(tables: Tables, a: Byte, b: Byte, c: Byte)
    requires tables.Valid() && tables.Sized()
    ensures IsFirst(Hints(a, false, b, false), tables, c) <==> c == a
    ensures IsFirst(Hints(tables.lcc[a], true, b, true), tables, c) <==> c == a || c == tables.fcc[a]
    ensures IsReq(Hints(a, false, b, false), tables, c) <==> c == b
    ensures IsReq(Hints(a, true, b, true), tables, c) <==> c == b || c == tables.fcc[b]
  {}

  /** The pattern that is just two characters. */
  ghost function PairAlts(r: Byte, x: Byte): (alts: Alts)
    ensures AltsOk(alts)
  {
    var both := Cat(Chr(Lit(r), One), Chr(Lit(x), One));
    assert ReOk(both);
    Last(both)
  }

  /** What the compiler notes of a caseless pattern of two characters holds of all its words. */
  lemma {:induction false} CaselessHints(tables: Tables, a: Byte, b: Byte)
    requires tables.Valid() && tables.Sized()
    ensures HintsHold(Hints(tables.lcc[a], true, b, true), Reading(false, Ims(true, false, false), tables),
                      PairAlts(a, b))
  {
    hide Tables.Valid, IsFirst, IsReq;
    var rd, h := Reading(false, Ims(true, false, false), tables), Hints(tables.lcc[a], true, b, true);
    var first, second := Chr(Lit(a), One), Chr(Lit(b), One);
    forall s, i: nat, j: nat | MatchesAlts(rd, PairAlts(a, b), s, i, j)
      ensures i + 1 < |s| && IsFirst(h, tables, s[i]) && IsReq(h, tables, s[i + 1]) {
      assert Matches(rd, Cat(first, second), s, i, j);
      var y: nat :| Matches(rd, first, s, i, y) && Matches(rd, second, s, y, j);
      OneChar(rd, a, s, i, y);
      OneChar(rd, b, s, y, j);
      HintsMean(tables, a, b, s[i]);
      HintsMean(tables, tables.lcc[a], b, s[i + 1]);
    }
  }

  lemma {:induction false} OneChar(rd: Reading, d: Byte, s: seq<Byte>, i: nat, j: nat)
    requires rd.tables.Sized() && rd.ims == Ims(true, false, false) && Matches(rd, Chr(Lit(d), One), s, i, j)
    ensures j == i + 1 && j <= |s| && (s[i] == d || s[i] == rd.tables.fcc[d])
  {}
}
