/** How the compiler spells a repeat {min,max} in opcodes, and that the spelling means
    min to max repetitions. */
module PcreRepeats {
  import opened Basics
  import opened PcreBytecode
  import opened PcreDfaMachine
  import opened PcreLanguage

  /** The bounds of a repeat; no maximum means unlimited. */
  datatype Bound = AtMost(max: nat) | Unlimited

  ghost predicate Within(min: nat, bound: Bound, k: nat) {
    min <= k && (bound.AtMost? ==> k <= bound.max)
  }

  // ------------------------------------------------------------ single characters

  /** The items emitted for a repeated character, type or class. */
  function RepeatedChar(a: Atom, min: nat, bound: Bound, lazy: bool): Re {
    if bound == AtMost(0) then Empty
    else if a.Class? then Chr(a, ClassRepeat(min, bound, lazy))
    else if min == 0 then
      Chr(a, if bound.Unlimited? then Star(lazy) else if bound.max == 1 then Query(lazy) else Upto(lazy, bound.max))
    else if min == 1 then
      if bound.Unlimited? then Chr(a, Plus(lazy))
      else if bound.max == 1 then Chr(a, One)
      else Cat(Chr(a, One), Chr(a, Upto(lazy, if bound.max > 1 then bound.max - 1 else 1)))
    else
      var exact := Chr(a, Exact(min));
      if bound.Unlimited? then Cat(exact, Chr(a, Star(lazy)))
      else if bound.max == min then exact
      else Cat(exact, Chr(a, Upto(lazy, if bound.max > min then bound.max - min else 1)))
  }

  function ClassRepeat(min: nat, bound: Bound, lazy: bool): Rep {
    if min == 0 && bound.Unlimited? then Star(lazy)
    else if min == 1 && bound.Unlimited? then Plus(lazy)
    else if min == 0 && bound == AtMost(1) then Query(lazy)
    else Range(lazy, min, if bound.Unlimited? then 0 else bound.max)
  }

  ghost predicate BoundsOk(min: nat, bound: Bound) {
    min < 0x10000 && (bound.AtMost? ==> min <= bound.max < 0x10000)
  }

  ghost predicate AllPass(rd: Reading, a: Atom, s: seq<Byte>, i: nat, j: nat)
    requires rd.tables.Sized() && AtomOk(a) && i <= j <= |s|
  {
    forall k :: i <= k < j ==> Passes(rd, a, One, s[k])
  }

  /** In the documented language the emitted items match min to max characters that pass. */
  lemma {:induction false} RepeatedCharMeans(rd: Reading, a: Atom, min: nat, bound: Bound, lazy: bool, s: seq<Byte>,
                                             i: nat, j: nat)
    requires rd.tables.Sized() && rd.documented && AtomOk(a) && BoundsOk(min, bound)
    ensures ReOk(RepeatedChar(a, min, bound, lazy))
    ensures Matches(rd, RepeatedChar(a, min, bound, lazy), s, i, j) <==>
            i <= j <= |s| && Within(min, bound, j - i) && AllPass(rd, a, s, i, j)
  {
    hide LitTest, TypeTest, HasBit;
    var re := RepeatedChar(a, min, bound, lazy);
    if re.Chr? && i <= j <= |s| {
      OneItem(rd, a, re.rep, s, i, j);
    } else if re.Cat? {
      hide Passes, AllPass, Matches;
      TwoItems(rd, a, re.left.rep, re.right.rep, s, i, j);
      if i <= j <= |s| && Within(min, bound, j - i) {
        assert SplitBy(re.left.rep, re.right.rep, i, i + min, j);
      }
    }
  }

  ghost predicate SplitBy(r1: Rep, r2: Rep, i: nat, h: nat, j: nat) {
    i <= h <= j && Counts(true, r1, h - i) && Counts(true, r2, j - h)
  }

  lemma {:induction false} TwoItems(rd: Reading, a: Atom, r1: Rep, r2: Rep, s: seq<Byte>, i: nat, j: nat)
    requires rd.tables.Sized() && rd.documented && AtomOk(a) && RepOk(a, r1) && RepOk(a, r2)
    ensures Matches(rd, Cat(Chr(a, r1), Chr(a, r2)), s, i, j) <==>
            i <= j <= |s| && AllPass(rd, a, s, i, j) && exists h: nat :: SplitBy(r1, r2, i, h, j)
  {
    hide Passes, AllPass;
    forall h: nat | i <= h <= j <= |s|
      ensures Matches(rd, Chr(a, r1), s, i, h) && Matches(rd, Chr(a, r2), s, h, j)
              <==> AllPass(rd, a, s, i, j) && SplitBy(r1, r2, i, h, j)
    {
      OneItem(rd, a, r1, s, i, h);
      OneItem(rd, a, r2, s, h, j);
      PassInParts(rd, a, s, i, h, j);
    }
  }

  lemma {:induction false} PassInParts(rd: Reading, a: Atom, s: seq<Byte>, i: nat, h: nat, j: nat)
    requires rd.tables.Sized() && AtomOk(a) && i <= h <= j <= |s|
    ensures AllPass(rd, a, s, i, j) <==> AllPass(rd, a, s, i, h) && AllPass(rd, a, s, h, j)
  {}

  lemma {:induction false} OneItem(rd: Reading, a: Atom, r: Rep, s: seq<Byte>, i: nat, j: nat)
    requires rd.tables.Sized() && rd.documented && AtomOk(a) && RepOk(a, r) && i <= j <= |s|
    ensures Matches(rd, Chr(a, r), s, i, j) <==> Counts(true, r, j - i) && AllPass(rd, a, s, i, j)
  {
    assert forall k :: i <= k < j ==> Passes(rd, a, r, s[k]) == Passes(rd, a, One, s[k]);
  }

  // ------------------------------------------------------------ brackets

  const PLAIN := GroupKind(false, false, false)

  /** Nested optional copies: at most `k` (at least one) of them. */
  function OptionalCopies(alts: Alts, n: nat, lazy: bool, k: nat): Re
    requires k > 0
  {
    if k == 1 then Group(alts, GroupKind(true, false, lazy), n)
    else Group(Last(Cat(Group(alts, PLAIN, n), OptionalCopies(alts, n, lazy, k - 1))), GroupKind(true, false, lazy), 0)
  }

  /** `k` plain copies followed by `tail`. */
  function CopiesThen(alts: Alts, n: nat, k: nat, tail: Re): Re {
    if k == 0 then tail else Cat(Group(alts, PLAIN, n), CopiesThen(alts, n, k - 1, tail))
  }

  /** The brackets emitted for a repeated bracket: copies, nested optional copies, or a final
      repeating copy. */
  function RepeatedGroup(alts: Alts, n: nat, min: nat, bound: Bound, lazy: bool): Re {
    match bound
    case Unlimited =>
      if min == 0 then Group(alts, GroupKind(true, true, lazy), n)
      else CopiesThen(alts, n, min - 1, Group(alts, GroupKind(false, true, lazy), n))
    case AtMost(max) =>
      if max == 0 then Empty
      else CopiesThen(alts, n, min, if max > min then OptionalCopies(alts, n, lazy, max - min) else Empty)
  }

  /** `k` consecutive words of the alternatives. */
  ghost predicate Times(rd: Reading, alts: Alts, s: seq<Byte>, k: nat, i: nat, j: nat)
    requires rd.tables.Sized() && AltsOk(alts)
  {
    if k == 0 then i == j <= |s| else Iterated(rd, alts, s, k - 1, i, j)
  }

  lemma {:induction false} AltsBounds(rd: Reading, alts: Alts, s: seq<Byte>, i: nat, j: nat)
    requires rd.tables.Sized() && AltsOk(alts) && MatchesAlts(rd, alts, s, i, j)
    ensures i <= j <= |s|
  {
    if !Matches(rd, alts.re, s, i, j) {
      AltsBounds(rd, alts.rest, s, i, j);
    }
  }

  lemma {:induction false} TimesSucc(rd: Reading, alts: Alts, s: seq<Byte>, k: nat, i: nat, j: nat)
    requires rd.tables.Sized() && AltsOk(alts)
    ensures Times(rd, alts, s, k + 1, i, j) <==>
            exists h: nat :: MatchesAlts(rd, alts, s, i, h) && Times(rd, alts, s, k, h, j)
  {
    if k == 0 {
      if MatchesAlts(rd, alts, s, i, j) {
        AltsBounds(rd, alts, s, i, j);
        assert Times(rd, alts, s, 0, j, j);
      }
      assert Times(rd, alts, s, 1, i, j) <==> Iterated(rd, alts, s, 0, i, j);
      assert Iterated(rd, alts, s, 0, i, j) <==> MatchesAlts(rd, alts, s, i, j);
    } else {
      if Times(rd, alts, s, k + 1, i, j) {
        var h := IteratedParts(rd, alts, s, k, i, j);
        assert Times(rd, alts, s, k, h, j);
      }
      if h: nat :| MatchesAlts(rd, alts, s, i, h) && Times(rd, alts, s, k, h, j) {
        IteratedJoin(rd, alts, s, k, i, h, j);
      }
    }
  }

  lemma {:induction false} IteratedJoin(rd: Reading, alts: Alts, s: seq<Byte>, k: nat, i: nat, h: nat, j: nat)
    requires rd.tables.Sized() && AltsOk(alts) && k > 0
    requires MatchesAlts(rd, alts, s, i, h) && Iterated(rd, alts, s, k - 1, h, j)
    ensures Iterated(rd, alts, s, k, i, j)
  {}

  lemma {:induction false} IteratedParts(rd: Reading, alts: Alts, s: seq<Byte>, k: nat, i: nat, j: nat) returns (h: nat)
    requires rd.tables.Sized() && AltsOk(alts) && k > 0 && Iterated(rd, alts, s, k, i, j)
    ensures MatchesAlts(rd, alts, s, i, h) && Iterated(rd, alts, s, k - 1, h, j)
  {
    h :| MatchesAlts(rd, alts, s, i, h) && Iterated(rd, alts, s, k - 1, h, j);
  }

  lemma {:induction false} TimesBounds(rd: Reading, alts: Alts, s: seq<Byte>, k: nat, i: nat, j: nat)
    requires rd.tables.Sized() && AltsOk(alts) && Times(rd, alts, s, k, i, j)
    ensures i <= j <= |s|
  {
    if k > 0 {
      TimesSucc(rd, alts, s, k - 1, i, j);
      var h: nat :| MatchesAlts(rd, alts, s, i, h) && Times(rd, alts, s, k - 1, h, j);
      AltsBounds(rd, alts, s, i, h);
      TimesBounds(rd, alts, s, k - 1, h, j);
    }
  }

  lemma {:induction false} PlainGroup(rd: Reading, alts: Alts, n: nat, s: seq<Byte>, i: nat, j: nat)
    requires rd.tables.Sized() && AltsOk(alts) && n <= EXTRACT_BASIC_MAX
    ensures Matches(rd, Group(alts, PLAIN, n), s, i, j) <==> MatchesAlts(rd, alts, s, i, j)
  {
    if MatchesAlts(rd, alts, s, i, j) {
      AltsBounds(rd, alts, s, i, j);
    }
  }

  lemma {:induction false} OptionalCopiesOk(alts: Alts, n: nat, lazy: bool, k: nat)
    requires AltsOk(alts) && n <= EXTRACT_BASIC_MAX && k > 0
    ensures ReOk(OptionalCopies(alts, n, lazy, k))
  {
    if k > 1 {
      OptionalCopiesOk(alts, n, lazy, k - 1);
      CopiesUnfold(alts, n, lazy, k);
      var both := Cat(Group(alts, PLAIN, n), OptionalCopies(alts, n, lazy, k - 1));
      assert ReOk(both) && AltsOk(Last(both));
    }
  }

  lemma {:induction false} OptionalCopiesMean(rd: Reading, alts: Alts, n: nat, lazy: bool, k: nat, s: seq<Byte>, i: nat,
                                              j: nat)
    requires rd.tables.Sized() && AltsOk(alts) && n <= EXTRACT_BASIC_MAX && k > 0
    ensures ReOk(OptionalCopies(alts, n, lazy, k))
    ensures Matches(rd, OptionalCopies(alts, n, lazy, k), s, i, j)
            <==> exists t: nat :: t <= k && Times(rd, alts, s, t, i, j)
    decreases k
  {
    OptionalCopiesOk(alts, n, lazy, k);
    if k == 1 {
      OneOptionalCopy(rd, alts, n, lazy, s, i, j);
    } else {
      hide OptionalCopies, Matches, MatchesAlts;
      OptionalCopiesOk(alts, n, lazy, k - 1);
      var rest := OptionalCopies(alts, n, lazy, k - 1);
      InnerWord(rd, alts, n, lazy, k, rest, s, i, j);
      if Matches(rd, OptionalCopies(alts, n, lazy, k), s, i, j) {
        if i == j {
          assert Times(rd, alts, s, 0, i, j);
        } else {
          var h: nat :| SplitsAt(rd, Group(alts, PLAIN, n), rest, s, i, h, j);
          PlainGroup(rd, alts, n, s, i, h);
          OptionalCopiesMean(rd, alts, n, lazy, k - 1, s, h, j);
          var t: nat :| t <= k - 1 && Times(rd, alts, s, t, h, j);
          TimesSucc(rd, alts, s, t, i, j);
          assert Times(rd, alts, s, t + 1, i, j);
        }
      }
      if t: nat :| t <= k && Times(rd, alts, s, t, i, j) {
        TimesBounds(rd, alts, s, t, i, j);
        if t > 0 {
          TimesSucc(rd, alts, s, t - 1, i, j);
          var h: nat :| MatchesAlts(rd, alts, s, i, h) && Times(rd, alts, s, t - 1, h, j);
          OptionalCopiesMean(rd, alts, n, lazy, k - 1, s, h, j);
          PlainGroup(rd, alts, n, s, i, h);
          assert SplitsAt(rd, Group(alts, PLAIN, n), rest, s, i, h, j);
        }
      }
    }
  }

  lemma {:induction false} OneOptionalCopy(rd: Reading, alts: Alts, n: nat, lazy: bool, s: seq<Byte>, i: nat, j: nat)
    requires rd.tables.Sized() && AltsOk(alts) && n <= EXTRACT_BASIC_MAX
    ensures Matches(rd, OptionalCopies(alts, n, lazy, 1), s, i, j)
            <==> exists t: nat :: t <= 1 && Times(rd, alts, s, t, i, j)
  {
    assert Times(rd, alts, s, 0, i, j) <==> i == j <= |s|;
    assert Times(rd, alts, s, 1, i, j) <==> Iterated(rd, alts, s, 0, i, j);
    assert Iterated(rd, alts, s, 0, i, j) <==> MatchesAlts(rd, alts, s, i, j);
    if MatchesAlts(rd, alts, s, i, j) {
      AltsBounds(rd, alts, s, i, j);
    }
  }

  /** A word of nested copies is empty, or a word of the first followed by one of the rest. */
  lemma {:induction false} InnerWord(rd: Reading, alts: Alts, n: nat, lazy: bool, k: nat, rest: Re, s: seq<Byte>,
                                     i: nat, j: nat)
    requires rd.tables.Sized() && AltsOk(alts) && n <= EXTRACT_BASIC_MAX && k > 1
    requires rest == OptionalCopies(alts, n, lazy, k - 1) && ReOk(rest) && ReOk(OptionalCopies(alts, n, lazy, k))
    ensures Matches(rd, OptionalCopies(alts, n, lazy, k), s, i, j) <==>
            i <= j <= |s| &&
            (i == j || exists h: nat :: SplitsAt(rd, Group(alts, PLAIN, n), rest, s, i, h, j))
  {
    hide OptionalCopies, Matches, SplitsAt;
    var both := Cat(Group(alts, PLAIN, n), rest);
    CatMeans(rd, Group(alts, PLAIN, n), rest, s, i, j);
    CopiesUnfold(alts, n, lazy, k);
    OptionalOf(rd, both, GroupKind(true, false, lazy), s, i, j);
  }

  lemma {:induction false} CopiesUnfold(alts: Alts, n: nat, lazy: bool, k: nat)
    requires k > 1
    ensures OptionalCopies(alts, n, lazy, k) ==
            Group(Last(Cat(Group(alts, PLAIN, n), OptionalCopies(alts, n, lazy, k - 1))), GroupKind(true, false, lazy),
                  0)
  {}

  lemma {:induction false} MatchesBounds(rd: Reading, re: Re, s: seq<Byte>, i: nat, j: nat)
    requires rd.tables.Sized() && ReOk(re) && Matches(rd, re, s, i, j)
    ensures i <= j <= |s|
  {}

  ghost predicate SplitsAt(rd: Reading, l: Re, r: Re, s: seq<Byte>, i: nat, h: nat, j: nat)
    requires rd.tables.Sized() && ReOk(l) && ReOk(r)
  {
    Matches(rd, l, s, i, h) && Matches(rd, r, s, h, j)
  }

  lemma {:induction false} CatMeans(rd: Reading, l: Re, r: Re, s: seq<Byte>, i: nat, j: nat)
    requires rd.tables.Sized() && ReOk(l) && ReOk(r)
    ensures Matches(rd, Cat(l, r), s, i, j) <==> i <= j <= |s| && exists h: nat :: SplitsAt(rd, l, r, s, i, h, j)
  {
    if Matches(rd, Cat(l, r), s, i, j) {
      var h := CatParts(rd, Cat(l, r), s, i, j);
      assert SplitsAt(rd, l, r, s, i, h, j);
    }
    if i <= j <= |s| && exists h: nat :: SplitsAt(rd, l, r, s, i, h, j) {
      var h: nat :| SplitsAt(rd, l, r, s, i, h, j);
      CatJoin(rd, l, r, s, i, h, j);
    }
  }

  lemma {:induction false} CatJoin(rd: Reading, l: Re, r: Re, s: seq<Byte>, i: nat, h: nat, j: nat)
    requires rd.tables.Sized() && ReOk(l) && ReOk(r) && i <= j <= |s|
    requires Matches(rd, l, s, i, h) && Matches(rd, r, s, h, j)
    ensures Matches(rd, Cat(l, r), s, i, j)
  {}

  lemma {:induction false} CatParts(rd: Reading, re: Re, s: seq<Byte>, i: nat, j: nat) returns (h: nat)
    requires rd.tables.Sized() && ReOk(re) && re.Cat? && Matches(rd, re, s, i, j)
    ensures Matches(rd, re.left, s, i, h) && Matches(rd, re.right, s, h, j)
  {
    h :| Matches(rd, re.left, s, i, h) && Matches(rd, re.right, s, h, j);
  }

  lemma {:induction false} OptionalOf(rd: Reading, re: Re, kind: GroupKind, s: seq<Byte>, i: nat, j: nat)
    requires rd.tables.Sized() && ReOk(re) && kind.optional && !kind.repeated
    ensures Matches(rd, Group(Last(re), kind, 0), s, i, j) <==> i <= j <= |s| && (i == j || Matches(rd, re, s, i, j))
  {
    assert MatchesAlts(rd, Last(re), s, i, j) <==> Matches(rd, re, s, i, j);
  }

  ghost predicate TimesThen(rd: Reading, alts: Alts, k: nat, tail: Re, s: seq<Byte>, i: nat, h: nat, j: nat)
    requires rd.tables.Sized() && AltsOk(alts) && ReOk(tail)
  {
    Times(rd, alts, s, k, i, h) && Matches(rd, tail, s, h, j)
  }

  lemma {:induction false} CopiesThenOk(alts: Alts, n: nat, k: nat, tail: Re)
    requires AltsOk(alts) && n <= EXTRACT_BASIC_MAX && ReOk(tail)
    ensures ReOk(CopiesThen(alts, n, k, tail))
  {
    if k > 0 {
      CopiesThenOk(alts, n, k - 1, tail);
    }
  }

  /** `k` copies and a tail match `k` words and a word of the tail. */
  lemma {:induction false} CopiesThenMean(rd: Reading, alts: Alts, n: nat, k: nat, tail: Re, s: seq<Byte>, i: nat,
                                          j: nat)
    requires rd.tables.Sized() && AltsOk(alts) && n <= EXTRACT_BASIC_MAX && ReOk(tail)
    ensures ReOk(CopiesThen(alts, n, k, tail))
    ensures Matches(rd, CopiesThen(alts, n, k, tail), s, i, j)
            <==> exists h: nat :: TimesThen(rd, alts, k, tail, s, i, h, j)
    decreases k
  {
    hide Matches, MatchesAlts, Iterated;
    CopiesThenOk(alts, n, k, tail);
    if k == 0 {
      if Matches(rd, tail, s, i, j) {
        MatchesBounds(rd, tail, s, i, j);
        assert TimesThen(rd, alts, 0, tail, s, i, i, j);
      }
    } else {
      var first, rest := Group(alts, PLAIN, n), CopiesThen(alts, n, k - 1, tail);
      CopiesThenOk(alts, n, k - 1, tail);
      CatMeans(rd, first, rest, s, i, j);
      if Matches(rd, Cat(first, rest), s, i, j) {
        var g: nat :| SplitsAt(rd, first, rest, s, i, g, j);
        PlainGroup(rd, alts, n, s, i, g);
        CopiesThenMean(rd, alts, n, k - 1, tail, s, g, j);
        var h: nat :| TimesThen(rd, alts, k - 1, tail, s, g, h, j);
        TimesSucc(rd, alts, s, k - 1, i, h);
        assert TimesThen(rd, alts, k, tail, s, i, h, j);
      }
      if h: nat :| TimesThen(rd, alts, k, tail, s, i, h, j) {
        TimesSucc(rd, alts, s, k - 1, i, h);
        var g: nat :| MatchesAlts(rd, alts, s, i, g) && Times(rd, alts, s, k - 1, g, h);
        PlainGroup(rd, alts, n, s, i, g);
        assert TimesThen(rd, alts, k - 1, tail, s, g, h, j);
        CopiesThenMean(rd, alts, n, k - 1, tail, s, g, j);
        TimesBounds(rd, alts, s, k, i, h);
        MatchesBounds(rd, tail, s, h, j);
        assert SplitsAt(rd, first, rest, s, i, g, j);
      }
    }
  }

  lemma {:induction false} TimesJoin(rd: Reading, alts: Alts, s: seq<Byte>, a: nat, b: nat, i: nat, h: nat, j: nat)
    requires rd.tables.Sized() && AltsOk(alts) && Times(rd, alts, s, a, i, h) && Times(rd, alts, s, b, h, j)
    ensures Times(rd, alts, s, a + b, i, j)
    decreases a
  {
    if a > 0 {
      TimesSucc(rd, alts, s, a - 1, i, h);
      var g: nat :| MatchesAlts(rd, alts, s, i, g) && Times(rd, alts, s, a - 1, g, h);
      TimesJoin(rd, alts, s, a - 1, b, g, h, j);
      TimesSucc(rd, alts, s, a - 1 + b, i, j);
    }
  }

  lemma {:induction false} TimesSplit(rd: Reading, alts: Alts, s: seq<Byte>, a: nat, b: nat, i: nat, j: nat)
    returns (h: nat)
    requires rd.tables.Sized() && AltsOk(alts) && Times(rd, alts, s, a + b, i, j)
    ensures Times(rd, alts, s, a, i, h) && Times(rd, alts, s, b, h, j)
    decreases a
  {
    if a == 0 {
      h := i;
      TimesBounds(rd, alts, s, b, i, j);
    } else {
      TimesSucc(rd, alts, s, a - 1 + b, i, j);
      var g: nat :| MatchesAlts(rd, alts, s, i, g) && Times(rd, alts, s, a - 1 + b, g, j);
      h := TimesSplit(rd, alts, s, a - 1, b, g, j);
      TimesSucc(rd, alts, s, a - 1, i, h);
    }
  }

  /** The tail after the compulsory copies matches what is still allowed. */
  lemma {:induction false} RepeatedGroupMeans(rd: Reading, alts: Alts, n: nat, min: nat, bound: Bound, lazy: bool,
                                              s: seq<Byte>, i: nat, j: nat)
    requires rd.tables.Sized() && AltsOk(alts) && n <= EXTRACT_BASIC_MAX && BoundsOk(min, bound)
    ensures ReOk(RepeatedGroup(alts, n, min, bound, lazy))
    ensures Matches(rd, RepeatedGroup(alts, n, min, bound, lazy), s, i, j) <==>
            exists k: nat :: Within(min, bound, k) && Times(rd, alts, s, k, i, j)
  {
    var re := RepeatedGroup(alts, n, min, bound, lazy);
    var copies := if bound.Unlimited? && min > 0 then min - 1 else if bound == AtMost(0) then 0 else min;
    var tail := if bound.Unlimited? then Group(alts, GroupKind(min == 0, true, lazy), n)
                else if bound.max > min then OptionalCopies(alts, n, lazy, bound.max - min) else Empty;
    assert re == CopiesThen(alts, n, copies, tail);
    if bound.AtMost? && bound.max > min {
      OptionalCopiesMean(rd, alts, n, lazy, bound.max - min, s, i, j);
    }
    CopiesThenMean(rd, alts, n, copies, tail, s, i, j);
    if Matches(rd, re, s, i, j) {
      var h: nat :| TimesThen(rd, alts, copies, tail, s, i, h, j);
      var t := TailTimes(rd, alts, n, min, bound, lazy, tail, s, h, j);
      TimesJoin(rd, alts, s, copies, t, i, h, j);
    }
    if k: nat :| Within(min, bound, k) && Times(rd, alts, s, k, i, j) {
      var h := TimesSplit(rd, alts, s, copies, k - copies, i, j);
      TailWord(rd, alts, n, min, bound, lazy, tail, k - copies, s, h, j);
      assert TimesThen(rd, alts, copies, tail, s, i, h, j);
    }
  }

  lemma {:induction false} TailTimes(rd: Reading, alts: Alts, n: nat, min: nat, bound: Bound, lazy: bool, tail: Re,
                                     s: seq<Byte>, i: nat, j: nat) returns (t: nat)
    requires rd.tables.Sized() && AltsOk(alts) && n <= EXTRACT_BASIC_MAX && BoundsOk(min, bound) && ReOk(tail)
    requires tail == if bound.Unlimited? then Group(alts, GroupKind(min == 0, true, lazy), n)
                     else if bound.max > min then OptionalCopies(alts, n, lazy, bound.max - min) else Empty
    requires Matches(rd, tail, s, i, j)
    ensures Times(rd, alts, s, t, i, j)
    ensures bound.Unlimited? && min > 0 ==> t > 0
    ensures bound.AtMost? ==> t <= bound.max - min
  {
    if bound.Unlimited? {
      if min == 0 && i == j {
        t := 0;
      } else {
        var c: nat :| Iterated(rd, alts, s, c, i, j);
        t := c + 1;
      }
    } else if bound.max > min {
      OptionalCopiesMean(rd, alts, n, lazy, bound.max - min, s, i, j);
      t :| t <= bound.max - min && Times(rd, alts, s, t, i, j);
    } else {
      t := 0;
    }
  }

  lemma {:induction false} TailWord(rd: Reading, alts: Alts, n: nat, min: nat, bound: Bound, lazy: bool, tail: Re,
                                    t: nat, s: seq<Byte>, i: nat, j: nat)
    requires rd.tables.Sized() && AltsOk(alts) && n <= EXTRACT_BASIC_MAX && BoundsOk(min, bound) && ReOk(tail)
    requires tail == if bound.Unlimited? then Group(alts, GroupKind(min == 0, true, lazy), n)
                     else if bound.max > min then OptionalCopies(alts, n, lazy, bound.max - min) else Empty
    requires Times(rd, alts, s, t, i, j)
    requires bound.Unlimited? && min > 0 ==> t > 0
    requires bound.AtMost? ==> t <= bound.max - min
    ensures Matches(rd, tail, s, i, j)
  {
    TimesBounds(rd, alts, s, t, i, j);
    if bound.AtMost? && bound.max > min {
      OptionalCopiesMean(rd, alts, n, lazy, bound.max - min, s, i, j);
    }
  }
}
