/** Where the DFA opcodes implement the documented language, and exactly where they do not. */
module PcreReadings {
  import opened Basics
  import opened PcreBytecode
  import opened PcreDfaMachine
  import opened PcreLanguage

  ghost function Documented(rd: Reading): Reading { rd.(documented := true) }
  ghost function AsCoded(rd: Reading): Reading { rd.(documented := false) }

  ghost predicate EmptyClass(a: Atom)
    requires AtomOk(a)
  {
    a.Class? && forall c: Byte :: !HasBit(a.bits[c / 8], c % 8)
  }

  /** An item the matcher treats as documented: a `*` or `?` on a character is safe unless some
      option other than caselessness is on and the character has two cases; a class with a
      minimum but no maximum is safe only if nothing is in the class. */
  ghost predicate ItemFaithful(rd: Reading, a: Atom, r: Rep)
    requires rd.tables.Sized() && AtomOk(a)
  {
    && ((r.Star? || r.Query?) && (a.Lit? || a.NotLit?) ==>
          !rd.ims.Nonzero() || rd.ims.caseless || rd.tables.fcc[a.c] == a.c)
    && (r.Range? && r.max == 0 ==> EmptyClass(a))
  }

  ghost predicate Faithful(rd: Reading, re: Re)
    requires rd.tables.Sized() && ReOk(re)
  {
    match re
    case Empty => true
    case Chr(a, r) => ItemFaithful(rd, a, r)
    case Cat(l, r) => Faithful(rd, l) && Faithful(rd, r)
    case Group(alts, _, _) => FaithfulAlts(rd, alts)
  }

  ghost predicate FaithfulAlts(rd: Reading, alts: Alts)
    requires rd.tables.Sized() && AltsOk(alts)
  {
    match alts
    case Last(re) => Faithful(rd, re)
    case More(re, rest) => Faithful(rd, re) && FaithfulAlts(rd, rest)
  }

  lemma {:induction false} ItemReads(rd: Reading, a: Atom, r: Rep, s: seq<Byte>, i: nat, j: nat)
    requires rd.tables.Sized() && AtomOk(a) && RepOk(a, r) && ItemFaithful(rd, a, r)
    ensures Matches(Documented(rd), Chr(a, r), s, i, j) <==> Matches(AsCoded(rd), Chr(a, r), s, i, j)
  {
    hide TypeTest, HasBit;
    if i <= j <= |s| {
      forall k | i <= k < j
        ensures Passes(Documented(rd), a, r, s[k]) == Passes(AsCoded(rd), a, r, s[k])
      {}
      if r.Range? && r.max == 0 && i < j {
        assert !Passes(rd, a, r, s[i]);
      }
    }
  }

  /** The two readings of one item agree on every subject exactly if the item is faithful. */
  lemma {:induction false} ItemReadsIff(rd: Reading, a: Atom, r: Rep)
    requires rd.tables.Sized() && AtomOk(a) && RepOk(a, r)
    ensures ItemFaithful(rd, a, r) <==>
            forall s, i: nat, j: nat ::
              Matches(Documented(rd), Chr(a, r), s, i, j) <==> Matches(AsCoded(rd), Chr(a, r), s, i, j)
  {
    if ItemFaithful(rd, a, r) {
      forall s, i: nat, j: nat
        ensures Matches(Documented(rd), Chr(a, r), s, i, j) <==> Matches(AsCoded(rd), Chr(a, r), s, i, j)
      {
        ItemReads(rd, a, r, s, i, j);
      }
    } else if (r.Star? || r.Query?) && (a.Lit? || a.NotLit?) {
      CaseDiffers(rd, a, r);
    } else {
      var c: Byte :| HasBit(a.bits[c / 8], c % 8);
      RangeDiffers(rd, a, r, c);
    }
  }

  /** The other case of the character, on its own, is read differently. */
  lemma {:induction false} CaseDiffers(rd: Reading, a: Atom, r: Rep)
    requires rd.tables.Sized() && (r.Star? || r.Query?) && (a.Lit? || a.NotLit?) && !ItemFaithful(rd, a, r)
    ensures var s := [rd.tables.fcc[a.c]];
            Matches(Documented(rd), Chr(a, r), s, 0, 1) != Matches(AsCoded(rd), Chr(a, r), s, 0, 1)
  {
    var s := [rd.tables.fcc[a.c]];
    assert Passes(Documented(rd), a, r, s[0]) != Passes(AsCoded(rd), a, r, s[0]);
  }

  /** Two more than the minimum: documented, but never matched. */
  lemma {:induction false} RangeDiffers(rd: Reading, a: Atom, r: Rep, c: Byte)
    requires rd.tables.Sized() && AtomOk(a) && RepOk(a, r) && r.Range? && r.max == 0
    requires HasBit(a.bits[c / 8], c % 8)
    ensures var s := seq(r.min + 2, _ => c);
            Matches(Documented(rd), Chr(a, r), s, 0, |s|) && !Matches(AsCoded(rd), Chr(a, r), s, 0, |s|)
  {
    var s := seq(r.min + 2, _ => c);
    assert forall k :: 0 <= k < |s| ==> s[k] == c;
  }

  /** A pattern of faithful items has the documented language. */
  lemma {:induction false} ReadsAsDocumented(rd: Reading, re: Re, s: seq<Byte>, i: nat, j: nat)
    requires rd.tables.Sized() && ReOk(re) && Faithful(rd, re)
    ensures Matches(Documented(rd), re, s, i, j) <==> Matches(AsCoded(rd), re, s, i, j)
    decreases re, 0, 0
  {
    hide Passes, Counts, ItemFaithful;
    match re {
      case Empty =>
      case Chr(a, r) =>
        ItemReads(rd, a, r, s, i, j);
      case Cat(l, r) =>
        forall h: nat
          ensures Matches(Documented(rd), l, s, i, h) <==> Matches(AsCoded(rd), l, s, i, h)
          ensures Matches(Documented(rd), r, s, h, j) <==> Matches(AsCoded(rd), r, s, h, j)
        {
          ReadsAsDocumented(rd, l, s, i, h);
          ReadsAsDocumented(rd, r, s, h, j);
        }
      case Group(alts, kind, _) =>
        AltsReadAsDocumented(rd, alts, s, i, j);
        forall n: nat
          ensures Iterated(Documented(rd), alts, s, n, i, j) <==> Iterated(AsCoded(rd), alts, s, n, i, j)
        {
          IterationsReadAsDocumented(rd, alts, s, n, i, j);
        }
    }
  }

  lemma {:induction false} AltsReadAsDocumented(rd: Reading, alts: Alts, s: seq<Byte>, i: nat, j: nat)
    requires rd.tables.Sized() && AltsOk(alts) && FaithfulAlts(rd, alts)
    ensures MatchesAlts(Documented(rd), alts, s, i, j) <==> MatchesAlts(AsCoded(rd), alts, s, i, j)
    decreases alts, 0, 0
  {
    hide Matches, Faithful;
    ReadsAsDocumented(rd, alts.re, s, i, j);
    if alts.More? {
      AltsReadAsDocumented(rd, alts.rest, s, i, j);
    }
  }

  lemma {:induction false} IterationsReadAsDocumented(rd: Reading, alts: Alts, s: seq<Byte>, n: nat, i: nat, j: nat)
    requires rd.tables.Sized() && AltsOk(alts) && FaithfulAlts(rd, alts)
    ensures Iterated(Documented(rd), alts, s, n, i, j) <==> Iterated(AsCoded(rd), alts, s, n, i, j)
    decreases alts, 1, n
  {
    hide MatchesAlts;
    if n == 0 {
      AltsReadAsDocumented(rd, alts, s, i, j);
    } else {
      forall h: nat
        ensures MatchesAlts(Documented(rd), alts, s, i, h) <==> MatchesAlts(AsCoded(rd), alts, s, i, h)
        ensures Iterated(Documented(rd), alts, s, n - 1, h, j) <==> Iterated(AsCoded(rd), alts, s, n - 1, h, j)
      {
        AltsReadAsDocumented(rd, alts, s, i, h);
        IterationsReadAsDocumented(rd, alts, s, n - 1, h, j);
      }
    }
  }

  // ------------------------------------------------------------ two patterns that differ

  /** Case tables of the ASCII letters. */
  function AsciiTables(): (tables: Tables)
    ensures tables.Valid()
  {
    var lower := seq(256, i requires 0 <= i < 256 => if 65 <= i <= 90 then (i + 32) as Byte else i);
    var flip := seq(256, i requires 0 <= i < 256 =>
      if 65 <= i <= 90 then (i + 32) as Byte else if 97 <= i <= 122 then (i - 32) as Byte else i);
    Tables(lower, flip, seq(256, _ => 0 as Byte))
  }

  // With dotall on, a starred "a" matches "A", although only caselessness should allow that.
  lemma {:induction false} DotallStarIgnoresCase()
    ensures var rd := Reading(false, Ims(false, false, true), AsciiTables());
            var re := Chr(Lit(97), Star(false));
            Matches(rd, re, [65], 0, 1) && !Matches(Documented(rd), re, [65], 0, 1)
  {
    var rd := Reading(false, Ims(false, false, true), AsciiTables());
    CaseDiffers(rd, Lit(97), Star(false));
  }

  // The class repeat [a]{2,} does not match "aaaa".
  lemma {:induction false} OpenRangeMissesLongRuns()
    ensures var rd := Reading(false, Ims(false, false, false), AsciiTables());
            var bits := seq(32, k => if k == 12 then 2 else 0);
            var re := Chr(Class(bits, false), Range(false, 2, 0));
            ReOk(re) && !Matches(rd, re, [97, 97, 97, 97], 0, 4) &&
            Matches(Documented(rd), re, [97, 97, 97, 97], 0, 4)
  {
    var rd := Reading(false, Ims(false, false, false), AsciiTables());
    var bits: seq<Byte> := seq(32, k => if k == 12 then 2 else 0);
    assert bits[97 / 8] == 2 && HasBit(bits[97 / 8], 97 % 8);
    RangeDiffers(rd, Class(bits, false), Range(false, 2, 0), 97);
    assert seq(2 + 2, _ => 97 as Byte) == [97, 97, 97, 97];
  }
}
