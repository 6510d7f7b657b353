/** pcre_dfa_exec: trying one start position after another, and what the results mean in
    terms of the pattern's language. */
module PcreDfaTop {
  import opened Basics
  import opened PcreBytecode
  import opened PcreDfaMachine
  import opened PcreLanguage
  import opened PcreReadings
  import opened PcreDfaSteps
  import opened PcreDfaLanguage
  import opened PcreDfaRun
  import opened PcreDfaRestart
  import opened PcreDfaScan
  import opened PcreDfaExec

  const REQ_BYTE_MAX := 1000

  // ------------------------------------------------------------ language

  /** The ends of the words of the pattern that begin at `start`, in increasing order. */
  ghost predicate EndsOfWords(rd: Reading, alts: Alts, s: seq<Byte>, start: nat, notEmpty: bool, ends: seq<nat>)
    requires rd.tables.Sized() && AltsOk(alts)
  {
    && Ascending(ends)
    && forall e: nat :: e in ends <==> MatchesAlts(rd, alts, s, start, e) && (e > start || !notEmpty)
  }

  lemma {:induction false} LiveIsWord(m: Machine, alts: Alts, s: seq<Byte>, start: nat, e: nat)
    requires Compiled(m, alts) && start <= |s|
    ensures Live(m, s, Branches(m.code, 0), start, End(m), e) <==> MatchesAlts(Implemented(m), alts, s, start, e)
  {
    hide Reaches, MatchesAlts, Branches, Tables.Valid, Fits;
    PatternLanguage(m.ims, m.tables, alts, s, start, e);
  }

  /** The matches of a run from the pattern's branches are the words of the pattern. */
  lemma {:induction false} MatchesAreWords(m: Machine, alts: Alts, s: seq<Byte>, start: nat, notEmpty: bool,
                                           ends: seq<nat>)
    requires Compiled(m, alts) && start <= |s|
    ensures AllMatches(m, s, Branches(m.code, 0), start, notEmpty, ends) <==>
            EndsOfWords(Implemented(m), alts, s, start, notEmpty, ends)
  {
    hide Live, MatchesAlts, Branches, PatternMachine, Tables.Valid, Fits;
    forall e: nat
      ensures Live(m, s, Branches(m.code, 0), start, End(m), e) <==> MatchesAlts(Implemented(m), alts, s, start, e)
    {
      LiveIsWord(m, alts, s, start, e);
    }
  }

  /** A pattern of faithful items matches what its documentation says. */
  lemma {:induction false} WordsAsDocumented(rd: Reading, alts: Alts, s: seq<Byte>, start: nat, notEmpty: bool,
                                             ends: seq<nat>)
    requires rd.tables.Sized() && AltsOk(alts) && FaithfulAlts(rd, alts)
    ensures EndsOfWords(AsCoded(rd), alts, s, start, notEmpty, ends) <==>
            EndsOfWords(Documented(rd), alts, s, start, notEmpty, ends)
  {
    hide MatchesAlts, FaithfulAlts;
    forall e: nat
      ensures MatchesAlts(AsCoded(rd), alts, s, start, e) <==> MatchesAlts(Documented(rd), alts, s, start, e)
    {
      AltsReadAsDocumented(rd, alts, s, start, e);
    }
  }

  /** Zero is returned for too small a vector, but also when two or more matches fill it exactly. */
  lemma {:induction false} ZeroReturned(n: nat, size: nat)
    requires size % 2 == 0
    ensures CountFor(n, size) == 0 <==> 2 * n > size || (2 * n == size && n >= 2)
    ensures CountFor(n, size) > 0 ==> CountFor(n, size) == n
  {}

  // ------------------------------------------------------------ start positions

  /** The compiler's knowledge of a pattern: a first byte, and a byte required later on
      (-1 for none), either of them perhaps in both cases. */
  datatype Hints = Hints(first: int, firstCaseless: bool, req: int, reqCaseless: bool)

  predicate IsFirst(h: Hints, tables: Tables, c: Byte)
    requires tables.Sized()
  {
    (if h.firstCaseless then tables.lcc[c] else c) == h.first
  }

  predicate IsReq(h: Hints, tables: Tables, c: Byte)
    requires tables.Sized()
  {
    c == h.req || (h.reqCaseless && 0 <= h.req < 256 && c == tables.fcc[h.req])
  }

  /** The hints hold of every word of the pattern. */
  ghost predicate HintsHold(h: Hints, rd: Reading, alts: Alts)
    requires rd.tables.Sized() && AltsOk(alts)
  {
    forall s, i: nat, j: nat :: MatchesAlts(rd, alts, s, i, j) ==>
      && (h.first >= 0 ==> i < |s| && IsFirst(h, rd.tables, s[i]))
      && (h.req >= 0 ==> exists k: nat :: i + (if h.first >= 0 then 1 else 0) <= k < |s| && IsReq(h, rd.tables, s[k]))
  }

  ghost predicate NoWordFrom(rd: Reading, alts: Alts, s: seq<Byte>, i: nat, notEmpty: bool)
    requires rd.tables.Sized() && AltsOk(alts)
  {
    forall e: nat :: MatchesAlts(rd, alts, s, i, e) ==> e == i && notEmpty
  }

  /** Skip to the next possible first byte. */
  method SkipToFirst(h: Hints, tables: Tables, s: seq<Byte>, from: nat) returns (cur: nat)
    requires tables.Sized() && from <= |s|
    ensures from <= cur <= |s|
    ensures h.first < 0 ==> cur == from
    ensures h.first >= 0 ==> (forall k :: from <= k < cur ==> !IsFirst(h, tables, s[k]))
    ensures h.first >= 0 && cur < |s| ==> IsFirst(h, tables, s[cur])
  {
    cur := from;
    if h.first >= 0 {
      while cur < |s| && !IsFirst(h, tables, s[cur])
        invariant from <= cur <= |s|
        invariant forall k :: from <= k < cur ==> !IsFirst(h, tables, s[k])
      {
        cur := cur + 1;
      }
    }
  }

  /** Find the required byte at or after `from`; |s| if there is none. */
  method FindReq(h: Hints, tables: Tables, s: seq<Byte>, from: nat) returns (p: nat)
    requires tables.Sized()
    ensures p >= from
    ensures forall k :: from <= k < p && k < |s| ==> !IsReq(h, tables, s[k])
    ensures p < |s| ==> IsReq(h, tables, s[p])
  {
    p := from;
    while p < |s| && !IsReq(h, tables, s[p])
      invariant p >= from
      invariant forall k :: from <= k < p && k < |s| ==> !IsReq(h, tables, s[k])
    {
      p := p + 1;
    }
  }

  /** No word starts at a byte that cannot be first, or where no required byte follows. */
  lemma {:induction false} HintsExclude(h: Hints, rd: Reading, alts: Alts, s: seq<Byte>, i: nat, notEmpty: bool)
    requires rd.tables.Sized() && AltsOk(alts) && HintsHold(h, rd, alts)
    requires || (h.first >= 0 && i < |s| && !IsFirst(h, rd.tables, s[i]))
             || (h.req >= 0 && forall k :: i + (if h.first >= 0 then 1 else 0) <= k < |s|
                                           ==> !IsReq(h, rd.tables, s[k]))
    ensures NoWordFrom(rd, alts, s, i, notEmpty)
  {
    hide MatchesAlts;
    forall e: nat | MatchesAlts(rd, alts, s, i, e) ensures false {}
  }

  /** The subject may end in a partial match that begins at `i`. */
  ghost predicate HasPartial(m: Machine, s: seq<Byte>, i: nat)
    requires m.tables.Sized()
  {
    i < |s| && exists b :: Live(m, s, Branches(m.code, 0), i, b, |s|)
  }

  /** Nothing to report for a start position: no word, and if partial matches are wanted none of these, unless the
      position was passed over because of its first byte. */
  ghost predicate Missed(m: Machine, alts: Alts, h: Hints, s: seq<Byte>, i: nat, opts: Options)
    requires m.tables.Sized() && AltsOk(alts)
  {
    && NoWordFrom(Implemented(m), alts, s, i, opts.notEmpty)
    && (opts.partial ==> !HasPartial(m, s, i) || (h.first >= 0 && i < |s| && !IsFirst(h, m.tables, s[i])))
  }

  /** The result of a whole call: from the first start position that has a match, all of its
      matches (or the shortest); no match if no position has one; or no room. */
  ghost predicate Leftmost(m: Machine, alts: Alts, h: Hints, s: seq<Byte>, from: nat, opts: Options, anchored: bool,
                           size: nat, limit: nat, before: seq<int>, after: seq<int>, rc: int, cur: nat, ends: seq<nat>,
                           saved: seq<State>)
    requires Compiled(m, alts) && from <= |s|
  {
    && from <= cur <= |s| + 1
    && (forall i :: from <= i < cur ==> Missed(m, alts, h, s, i, opts))
    && if rc == NOMATCH then
         after == before && (cur == |s| + 1 || (anchored && Missed(m, alts, h, s, cur, opts)))
       else
         cur <= |s| && Outcome(m, alts, s, Branches(m.code, 0), cur, opts, size, limit, before, after, rc, ends, saved)
  }

  lemma {:induction false} HintsMiss(m: Machine, alts: Alts, h: Hints, s: seq<Byte>, i: nat, opts: Options)
    requires m.tables.Sized() && AltsOk(alts) && HintsHold(h, Implemented(m), alts)
    requires || (h.first >= 0 && i < |s| && !IsFirst(h, m.tables, s[i]))
             || (!opts.partial && h.req >= 0 && forall k :: i + (if h.first >= 0 then 1 else 0) <= k < |s|
                                                            ==> !IsReq(h, m.tables, s[k]))
    ensures Missed(m, alts, h, s, i, opts)
  {
    hide HintsHold, HasPartial, IsFirst, IsReq, NoWordFrom;
    HintsExclude(h, Implemented(m), alts, s, i, opts.notEmpty);
  }

  /** An anchored call does not look at the first byte. */
  function Effective(hints: Hints, anchored: bool): Hints { if anchored then hints.(first := -1) else hints }

  /** Hints that hold of a pattern still hold then, and the required byte stays as it is. */
  lemma {:induction false} EffectiveHolds(hints: Hints, anchored: bool, rd: Reading, alts: Alts)
    requires rd.tables.Sized() && AltsOk(alts)
    ensures var h := Effective(hints, anchored);
            && (HintsHold(hints, rd, alts) ==> HintsHold(h, rd, alts))
            && h.req == hints.req && h.reqCaseless == hints.reqCaseless
            && (if anchored then h.first < 0 else h.first == hints.first && h.firstCaseless == hints.firstCaseless)
  {
    hide MatchesAlts;
  }

  /** pcre_dfa_exec on a compiled pattern, not restarting. */
  method DfaExec(code: seq<Byte>, tables: Tables, ims: Ims, ghost alts: Alts, hints: Hints, s: seq<Byte>,
                 startOffset: nat, anchored: bool, opts: Options, offsets: array<int>, offsetcount: nat, ws: Workspace)
    returns (rc: int, ghost cur: nat, ghost ends: seq<nat>)
    requires AltsOk(alts) && Fits(ims, alts) && code == Pattern(ims, alts) && tables.Valid() && tables.Sized()
    requires HintsHold(Effective(hints, anchored), Reading(false, ims, tables), alts)
    requires startOffset <= |s| && offsetcount <= offsets.Length && ws.Valid() && !opts.restart
    modifies ws, ws.low, ws.high, ws.low.blocks, ws.high.blocks, offsets
    ensures ws.Valid() && Compiled(PatternMachine(ims, tables, alts), alts)
    ensures Leftmost(PatternMachine(ims, tables, alts), alts, Effective(hints, anchored), s, startOffset, opts,
                     anchored, offsetcount - offsetcount % 2, ws.limit, old(offsets[..]), offsets[..], rc, cur, ends,
                     ws.Saved())
  {
    hide HintsHold, MatchesAlts, Outcome, Tables.Valid, Fits, PatternMachine, Pattern, Branches, NoWordFrom, IsFirst,
         IsReq, Compiled, Missed;
    CompiledMachine(ims, tables, alts);
    ghost var m, before, size := PatternMachine(ims, tables, alts), offsets[..], offsetcount - offsetcount % 2;
    var h := Effective(hints, anchored);
    var c, reqPtr := startOffset, startOffset - 1;
    ends := [];
    while true
      invariant startOffset <= c <= |s| && ws.Valid()
      invariant forall i :: startOffset <= i < c ==> Missed(m, alts, h, s, i, opts)
      invariant reqPtr >= startOffset ==> reqPtr < |s| && IsReq(h, tables, s[reqPtr])
      invariant offsets[..] == before
      decreases |s| - c
    {
      var next := SkipToFirst(h, tables, s, c);
      forall i | c <= i < next ensures Missed(m, alts, h, s, i, opts) {
        HintsMiss(m, alts, h, s, i, opts);
      }
      c := next;
      if h.req >= 0 && |s| - c < REQ_BYTE_MAX && !opts.partial {
        var p: nat := c + (if h.first >= 0 then 1 else 0);
        if p > reqPtr {
          p := FindReq(h, tables, s, p);
          if p >= |s| {
            forall i | c <= i ensures Missed(m, alts, h, s, i, opts) {
              HintsMiss(m, alts, h, s, i, opts);
            }
            cur := |s| + 1;
            return NOMATCH, cur, ends;
          }
          reqPtr := p;
        }
      }
      rc, ends := InternalDfaExec(code, tables, ims, alts, s, c, opts, offsets, offsetcount, ws);
      cur := c;
      if rc != NOMATCH || anchored {
        if rc == NOMATCH {
          NothingThere(m, alts, h, s, c, opts, size, ws.limit, before, offsets[..], ends, ws.Saved());
        }
        return;
      }
      NothingThere(m, alts, h, s, c, opts, size, ws.limit, before, offsets[..], ends, ws.Saved());
      c := c + 1;
      if c > |s| {
        cur := c;
        return NOMATCH, cur, ends;
      }
    }
  }

  lemma {:induction false} NothingThere(m: Machine, alts: Alts, h: Hints, s: seq<Byte>, start: nat, opts: Options,
                                        size: nat, limit: nat, before: seq<int>, after: seq<int>, ends: seq<nat>,
                                        saved: seq<State>)
    requires Compiled(m, alts) && start <= |s|
    requires Outcome(m, alts, s, Branches(m.code, 0), start, opts, size, limit, before, after, NOMATCH, ends, saved)
    ensures Missed(m, alts, h, s, start, opts) && after == before
  {
    hide MatchesAlts, Branches, AllMatches, Live, PatternMachine, Fits, Tables.Valid, Stored, LeftOver, Ages, TooSmall,
         IsFirst;
    MatchesAreWords(m, alts, s, start, opts.notEmpty, ends);
    assert ends == [];
    StoredNothing(after, before, size, start);
    forall e: nat | MatchesAlts(Implemented(m), alts, s, start, e)
      ensures e == start && opts.notEmpty
    {
      assert e !in ends;
      WordForward(m, alts, s, start, e);
    }
  }

  lemma {:induction false} WordForward(m: Machine, alts: Alts, s: seq<Byte>, start: nat, e: nat)
    requires m.tables.Sized() && AltsOk(alts) && MatchesAlts(Implemented(m), alts, s, start, e)
    ensures start <= e
  {
    if !Matches(Implemented(m), alts.re, s, start, e) {
      WordForward(m, alts.rest, s, start, e);
    }
  }
}
