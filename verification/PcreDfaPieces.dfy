/** A subject matched in pieces: what a restart returns, when that is the answer for the pieces together, and when
    not. */
module PcreDfaPieces {
  import opened Basics
  import opened PcreBytecode
  import opened PcreDfaMachine
  import opened PcreLanguage
  import opened PcreReadings
  import opened PcreDfaSteps
  import opened PcreDfaLanguage
  import opened PcreDfaRun
  import opened PcreDfaRestart
  import opened PcreDfaScan
  import opened PcreDfaExec
  import opened PcreDfaTop

  // ------------------------------------------------------------ the right answer

  /** After `s` a run from `start` has found no word, and `saved` stands for what it has not yet decided. */
  ghost predicate Pending(m: Machine, alts: Alts, s: seq<Byte>, start: nat, notEmpty: bool, saved: seq<State>)
    requires m.tables.Sized() && AltsOk(alts)
  {
    && start < |s| && AllSane(m, alts, saved) && Young(m, saved, |s| - start)
    && Stands(m, s, Branches(m.code, 0), start, saved) && AllMatches(m, s, Branches(m.code, 0), start, notEmpty, [])
  }

  ghost predicate ShortestWord(rd: Reading, alts: Alts, s: seq<Byte>, start: nat, notEmpty: bool, end: nat)
    requires rd.tables.Sized() && AltsOk(alts)
  {
    && MatchesAlts(rd, alts, s, start, end) && (end > start || !notEmpty)
    && forall e: nat :: MatchesAlts(rd, alts, s, start, e) && (e > start || !notEmpty) ==> end <= e
  }

  ghost predicate StillLive(m: Machine, s: seq<Byte>, start: nat)
    requires m.tables.Sized()
  {
    exists b :: Live(m, s, Branches(m.code, 0), start, b, |s|)
  }

  ghost function Marked(before: seq<int>, size: nat, at: nat, end: nat): seq<int>
    requires size <= |before|
  {
    if size >= 2 then before[0 := at][1 := end] else before
  }

  /** The answer for `prefix + s` from `start`, given by a call that sees only `s` and starts there at `at`: the
      ends of all words, longest first, with positions in `s` (or the shortest); or that there may be a word yet; or
      no room. */
  ghost predicate Answer(m: Machine, alts: Alts, prefix: seq<Byte>, s: seq<Byte>, at: nat, start: nat, notEmpty: bool,
                         opts: Options, size: nat, limit: nat, before: seq<int>, after: seq<int>, rc: int,
                         ends: seq<nat>, saved: seq<State>)
    requires m.tables.Sized() && AltsOk(alts) && at <= |s| && start <= |prefix| + at
  {
    var all, rd := prefix + s, Implemented(m);
    || (rc == WSSIZE && limit < SpaceBound(|m.code|, |all| - start))
    || (&& opts.shortest && |ends| == 1 && ShortestWord(rd, alts, all, start, notEmpty, |prefix| + ends[0])
        && rc == CountFor(1, size) && Stored(after, before, size, at, ends))
    || (&& EndsOfWords(rd, alts, all, start, notEmpty, Shifted(ends, |prefix|))
        && if opts.partial && ends == [] && at < |s| && StillLive(m, all, start) then
             && rc == PARTIAL && Pending(m, alts, all, start, notEmpty, saved)
             && size <= |before| && after == Marked(before, size, at, |s|)
           else
             rc == CountFor(|ends|, size) && Stored(after, before, size, at, ends))
  }

  /** The first piece, in one run. */
  lemma {:induction false} FirstRight(m: Machine, alts: Alts, s: seq<Byte>, start: nat, opts: Options, size: nat,
                                      limit: nat, before: seq<int>, after: seq<int>, rc: int, ends: seq<nat>,
                                      saved: seq<State>)
    requires Compiled(m, alts) && start <= |s|
    requires Outcome(m, alts, s, Branches(m.code, 0), start, opts, size, limit, before, after, rc, ends, saved)
    ensures Answer(m, alts, [], s, start, start, opts.notEmpty, opts, size, limit, before, after, rc, ends, saved)
    ensures rc == PARTIAL ==> Pending(m, alts, s, start, opts.notEmpty, saved)
  {
    hide Live, Branches, PatternMachine, Fits, Tables.Valid, Stored, SpaceBound, Young, AllSane, MatchesAlts,
         AllMatches, EndsOfWords, Stands;
    var init := Branches(m.code, 0);
    BranchesYoung(m, alts);
    assert [] + s == s;
    NotShifted(ends);
    if FullOutcome(m, s, init, start, opts, size, before, after, rc, ends) {
      MatchesAreWords(m, alts, s, start, opts.notEmpty, ends);
    } else if opts.shortest && ShortOutcome(m, s, init, start, opts, size, before, after, rc, ends) {
      forall e: nat ensures Live(m, s, init, start, End(m), e) <==> MatchesAlts(Implemented(m), alts, s, start, e) {
        LiveIsWord(m, alts, s, start, e);
      }
    }
  }

  lemma {:induction false} NotShifted(ends: seq<nat>)
    ensures Shifted(ends, 0) == ends
  {}

  /** Taken up from the saved states, a run over the next piece gives the answer for all of the subject so far. */
  lemma {:induction false} ResumedRight(m: Machine, alts: Alts, prefix: seq<Byte>, s: seq<Byte>, start: nat,
                                        notEmpty: bool, init: seq<State>, opts: Options, size: nat, limit: nat,
                                        before: seq<int>, after: seq<int>, rc: int, ends: seq<nat>, saved: seq<State>)
    requires Compiled(m, alts) && Pending(m, alts, prefix, start, notEmpty, init)
    requires Outcome(m, alts, s, init, 0, opts, size, limit, before, after, rc, ends, saved)
    ensures Answer(m, alts, prefix, s, 0, start, notEmpty, opts, size, limit, before, after, rc, ends, saved)
    ensures rc == NOMATCH ==> NoWordFrom(Implemented(m), alts, prefix + s, start, notEmpty)
    ensures rc == NOMATCH && opts.partial && s != [] ==> !StillLive(m, prefix + s, start)
  {
    hide Live, Branches, PatternMachine, Fits, Tables.Valid, Stored, SpaceBound, Young, AllSane, MatchesAlts,
         AllMatches, EndsOfWords, Stands, NoWordFrom;
    var all, first := prefix + s, Branches(m.code, 0);
    forall b, j: nat ensures Live(m, all, first, start, b, |prefix| + j) <==> Live(m, s, init, 0, b, j) {
      LiveBeyond(m, prefix, s, first, start, init, b, j);
    }
    if FullOutcome(m, s, init, 0, opts, size, before, after, rc, ends) {
      MatchesInPieces(m, prefix, s, first, start, notEmpty, init, opts.notEmpty, ends);
      MatchesAreWords(m, alts, all, start, notEmpty, Shifted(ends, |prefix|));
      StillLiveThere(m, prefix, s, start, init);
      if rc == PARTIAL {
        StandsJoin(m, prefix, s, first, start, init, saved);
        assert Shifted(ends, |prefix|) == [];
      }
      if rc == NOMATCH {
        assert Shifted(ends, |prefix|) == [];
        NoEndsNoWord(m, alts, all, start, notEmpty);
      }
    } else if opts.shortest && ShortOutcome(m, s, init, 0, opts, size, before, after, rc, ends) {
      ShortRight(m, alts, prefix, s, start, notEmpty, init, opts, ends);
    }
  }

  lemma {:induction false} StillLiveThere(m: Machine, prefix: seq<Byte>, s: seq<Byte>, start: nat, init: seq<State>)
    requires m.tables.Sized() && start <= |prefix| && Stands(m, prefix, Branches(m.code, 0), start, init)
    ensures StillLive(m, prefix + s, start) <==> exists b :: Live(m, s, init, 0, b, |s|)
  {
    hide Live, Branches, Stands;
    forall b ensures Live(m, prefix + s, Branches(m.code, 0), start, b, |prefix + s|) <==> Live(m, s, init, 0, b, |s|) {
      LiveBeyond(m, prefix, s, Branches(m.code, 0), start, init, b, |s|);
    }
  }

  lemma {:induction false} NoEndsNoWord(m: Machine, alts: Alts, s: seq<Byte>, start: nat, notEmpty: bool)
    requires Compiled(m, alts) && start <= |s|
    ensures EndsOfWords(Implemented(m), alts, s, start, notEmpty, [])
            <==> NoWordFrom(Implemented(m), alts, s, start, notEmpty)
  {
    hide MatchesAlts, PatternMachine, Fits, Tables.Valid;
    var none: seq<nat> := [];
    forall e: nat | MatchesAlts(Implemented(m), alts, s, start, e) ensures start <= e {
      WordForward(m, alts, s, start, e);
    }
    assert forall e: nat :: e !in none;
  }

  lemma {:induction false} ShortRight(m: Machine, alts: Alts, prefix: seq<Byte>, s: seq<Byte>, start: nat,
                                      notEmpty: bool, init: seq<State>, opts: Options, ends: seq<nat>)
    requires Compiled(m, alts) && Pending(m, alts, prefix, start, notEmpty, init) && |ends| == 1
    requires Live(m, s, init, 0, End(m), ends[0]) && Allowed(opts, 0, ends[0])
    requires forall e: nat :: Live(m, s, init, 0, End(m), e) && Allowed(opts, 0, e) ==> ends[0] <= e
    requires forall b, j: nat :: Live(m, prefix + s, Branches(m.code, 0), start, b, |prefix| + j)
                                 <==> Live(m, s, init, 0, b, j)
    ensures ShortestWord(Implemented(m), alts, prefix + s, start, notEmpty, |prefix| + ends[0])
  {
    hide Live, Branches, PatternMachine, Fits, Tables.Valid, Young, AllSane, MatchesAlts, Stands;
    var all, first, p := prefix + s, Branches(m.code, 0), |prefix|;
    NoneInFirst(m, prefix, s, first, start, notEmpty);
    LiveIsWord(m, alts, all, start, p + ends[0]);
    forall e: nat | MatchesAlts(Implemented(m), alts, all, start, e) && (e > start || !notEmpty)
      ensures p + ends[0] <= e {
      LiveIsWord(m, alts, all, start, e);
      if e > p {
        assert Live(m, all, first, start, End(m), p + (e - p));
        assert Live(m, s, init, 0, End(m), e - p);
      }
    }
  }

  lemma {:induction false} PartialPends(m: Machine, alts: Alts, prefix: seq<Byte>, s: seq<Byte>, at: nat, start: nat,
                                        notEmpty: bool, opts: Options, size: nat, limit: nat, before: seq<int>,
                                        after: seq<int>, ends: seq<nat>, saved: seq<State>)
    requires m.tables.Sized() && AltsOk(alts) && at <= |s| && start <= |prefix| + at
    requires Answer(m, alts, prefix, s, at, start, notEmpty, opts, size, limit, before, after, PARTIAL, ends, saved)
    ensures Pending(m, alts, prefix + s, start, notEmpty, saved) && size <= |before|
            && after == Marked(before, size, at, |s|)
  {
    hide EndsOfWords, ShortestWord, Stored, StillLive, Pending;
  }

  /** The states a whole call leaves with a partial match are such as a restart can take up. */
  lemma {:induction false} PartialIsPending(m: Machine, alts: Alts, h: Hints, s: seq<Byte>, from: nat, opts: Options,
                                            anchored: bool, size: nat, limit: nat, before: seq<int>, after: seq<int>,
                                            cur: nat, ends: seq<nat>, saved: seq<State>)
    requires Compiled(m, alts) && from <= |s|
    requires Leftmost(m, alts, h, s, from, opts, anchored, size, limit, before, after, PARTIAL, cur, ends, saved)
    ensures cur <= |s| && Pending(m, alts, s, cur, opts.notEmpty, saved)
  {
    hide Outcome, Pending, Missed;
    FirstRight(m, alts, s, cur, opts, size, limit, before, after, PARTIAL, ends, saved);
  }

  // ------------------------------------------------------------ one call, as documented

  /** What a call that is not a restart should return: no match if no word begins at a start position it tries, or
      the words (the shortest, if only that is wanted) from the first start position that has any. */
  ghost predicate LeftmostWords(rd: Reading, alts: Alts, s: seq<Byte>, from: nat, opts: Options, anchored: bool,
                                size: nat, before: seq<int>, after: seq<int>, rc: int, cur: nat, ends: seq<nat>)
    requires rd.tables.Sized() && AltsOk(alts)
  {
    && from <= cur && (forall i :: from <= i < cur ==> NoWordFrom(rd, alts, s, i, opts.notEmpty))
    && if rc == NOMATCH then
         after == before && (cur == |s| + 1 || (anchored && NoWordFrom(rd, alts, s, cur, opts.notEmpty)))
       else
         && rc == CountFor(|ends|, size) && Stored(after, before, size, cur, ends) && ends != []
         && (|| EndsOfWords(rd, alts, s, cur, opts.notEmpty, ends)
             || (opts.shortest && |ends| == 1 && ShortestWord(rd, alts, s, cur, opts.notEmpty, ends[0])))
  }

  /** A call on a pattern of faithful items returns what the documentation promises of the pattern. */
  lemma {:induction false} DfaExecAsDocumented(m: Machine, alts: Alts, h: Hints, s: seq<Byte>, from: nat, opts: Options,
                                               anchored: bool, size: nat, limit: nat, before: seq<int>, after: seq<int>,
                                               rc: int, cur: nat, ends: seq<nat>, saved: seq<State>)
    requires Compiled(m, alts) && from <= |s| && FaithfulAlts(Implemented(m), alts) && rc != WSSIZE && rc != PARTIAL
    requires Leftmost(m, alts, h, s, from, opts, anchored, size, limit, before, after, rc, cur, ends, saved)
    ensures LeftmostWords(Documented(Implemented(m)), alts, s, from, opts, anchored, size, before, after, rc, cur, ends)
  {
    hide MatchesAlts, FaithfulAlts, Outcome, Tables.Valid, Fits, PatternMachine, Stored, Pending, StillLive, HasPartial,
         IsFirst;
    var rd := Implemented(m);
    forall i: nat, e: nat ensures MatchesAlts(Documented(rd), alts, s, i, e) <==> MatchesAlts(rd, alts, s, i, e) {
      AltsReadAsDocumented(rd, alts, s, i, e);
    }
    forall i | from <= i < cur ensures NoWordFrom(Documented(rd), alts, s, i, opts.notEmpty) {
      assert Missed(m, alts, h, s, i, opts);
    }
    if rc != NOMATCH {
      FirstRight(m, alts, s, cur, opts, size, limit, before, after, rc, ends, saved);
      assert [] + s == s;
      NotShifted(ends);
    }
  }

  // ------------------------------------------------------------ piece after piece

  ghost function Together(pieces: seq<seq<Byte>>): seq<Byte> {
    if pieces == [] then [] else Together(pieces[..|pieces| - 1]) + pieces[|pieces| - 1]
  }

  lemma {:induction false} TogetherNext(pieces: seq<seq<Byte>>, n: nat)
    requires n < |pieces|
    ensures Together(pieces[..n + 1]) == Together(pieces[..n]) + pieces[n] && (n == 0 ==> Together(pieces[..n]) == [])
  {
    assert pieces[..n + 1][..n] == pieces[..n];
  }

  lemma {:induction false} TogetherLength(pieces: seq<seq<Byte>>, n: nat)
    requires 0 < n <= |pieces|
    ensures |Together(pieces[..n])| >= |pieces[0]|
  {
    TogetherNext(pieces, n - 1);
    if n > 1 {
      TogetherLength(pieces, n - 1);
    }
  }

  /** A subject in pieces: the first is matched, and as long as the match is partial the next is taken up. The last
      call made has the answer for all pieces it took to get there; its positions are those in the last of them. */
  method MatchPieces(code: seq<Byte>, tables: Tables, ims: Ims, ghost alts: Alts, pieces: seq<seq<Byte>>, start: nat,
                     opts: Options, offsets: array<int>, offsetcount: nat, ws: Workspace)
    returns (n: nat, rc: int, ghost ends: seq<nat>, ghost middle: seq<int>)
    requires AltsOk(alts) && Fits(ims, alts) && code == Pattern(ims, alts) && tables.Valid() && tables.Sized()
    requires pieces != [] && start <= |pieces[0]| && offsetcount <= offsets.Length && ws.Valid() && !opts.restart
    modifies ws, ws.low, ws.high, ws.low.blocks, ws.high.blocks, offsets
    ensures ws.Valid() && 0 < n <= |pieces| && (rc == PARTIAL ==> n == |pieces|)
    ensures |middle| == offsets.Length && forall x :: 2 <= x < |middle| ==> middle[x] == old(offsets[..])[x]
    ensures var at := if n == 1 then start else 0;
            && at <= |pieces[n - 1]| && start <= |Together(pieces[..n - 1])| + at
            && Answer(PatternMachine(ims, tables, alts), alts, Together(pieces[..n - 1]), pieces[n - 1], at, start,
                      opts.notEmpty, opts, offsetcount - offsetcount % 2, ws.limit, middle, offsets[..], rc, ends,
                      ws.Saved())
    ensures rc == PARTIAL ==> Pending(PatternMachine(ims, tables, alts), alts, Together(pieces), start, opts.notEmpty,
                                      ws.Saved())
  {
    hide MatchesAlts, Outcome, Answer, Tables.Valid, Fits, PatternMachine, Pattern, Branches, Stands, AllMatches,
         AllSane, Young, Together;
    CompiledMachine(ims, tables, alts);
    ghost var m, size := PatternMachine(ims, tables, alts), offsetcount - offsetcount % 2;
    middle := offsets[..];
    rc, ends := InternalDfaExec(code, tables, ims, alts, pieces[0], start, opts, offsets, offsetcount, ws);
    n := 1;
    TogetherNext(pieces, 0);
    assert [] + pieces[0] == pieces[0];
    FirstRight(m, alts, pieces[0], start, opts, size, ws.limit, middle, offsets[..], rc, ends, ws.Saved());
    var again := opts.(restart := true);
    while rc == PARTIAL && n < |pieces|
      invariant ws.Valid() && 0 < n <= |pieces|
      invariant |middle| == offsets.Length && forall x :: 2 <= x < |middle| ==> middle[x] == old(offsets[..])[x]
      invariant var at := if n == 1 then start else 0;
                && at <= |pieces[n - 1]| && start <= |Together(pieces[..n - 1])| + at
                && Answer(m, alts, Together(pieces[..n - 1]), pieces[n - 1], at, start, opts.notEmpty, opts, size,
                          ws.limit, middle, offsets[..], rc, ends, ws.Saved())
      invariant Together(pieces[..n]) == Together(pieces[..n - 1]) + pieces[n - 1]
      invariant rc == PARTIAL ==> Pending(m, alts, Together(pieces[..n]), start, opts.notEmpty, ws.Saved())
      decreases |pieces| - n
    {
      PartialPends(m, alts, Together(pieces[..n - 1]), pieces[n - 1], if n == 1 then start else 0, start, opts.notEmpty,
                   opts, size, ws.limit, middle, offsets[..], ends, ws.Saved());
      middle := offsets[..];
      ghost var held := ws.Saved();
      TogetherLength(pieces, n);
      TogetherNext(pieces, n);
      rc, ends := InternalDfaExec(code, tables, ims, alts, pieces[n], 0, again, offsets, offsetcount, ws);
      ResumedRight(m, alts, Together(pieces[..n]), pieces[n], start, opts.notEmpty, held, again, size, ws.limit, middle,
                   offsets[..], rc, ends, ws.Saved());
      SameAnswer(m, alts, Together(pieces[..n]), pieces[n], start, opts.notEmpty, again, opts, size, ws.limit, middle,
                 offsets[..], rc, ends, ws.Saved());
      n := n + 1;
    }
    assert n == |pieces| ==> pieces[..n] == pieces;
  }

  /** That a call is a restart does not matter to what its answer should be. */
  lemma {:induction false} SameAnswer(m: Machine, alts: Alts, prefix: seq<Byte>, s: seq<Byte>, start: nat,
                                      notEmpty: bool, again: Options, opts: Options, size: nat, limit: nat,
                                      before: seq<int>, after: seq<int>, rc: int, ends: seq<nat>, saved: seq<State>)
    requires m.tables.Sized() && AltsOk(alts) && start <= |prefix| && again == opts.(restart := true)
    requires Answer(m, alts, prefix, s, 0, start, notEmpty, again, size, limit, before, after, rc, ends, saved)
    ensures Answer(m, alts, prefix, s, 0, start, notEmpty, opts, size, limit, before, after, rc, ends, saved)
    ensures rc == PARTIAL ==> Pending(m, alts, prefix + s, start, notEmpty, saved)
  {
    hide EndsOfWords, ShortestWord, Stored, StillLive, Pending;
  }

  // ------------------------------------------------------------ pcre_dfa_exec, restarting

  /** Whether pcre_dfa_exec gives up at a position, without looking at the saved states, because the required byte
      is not in what is left of this piece: it may have been in an earlier one; and with a known first byte the
      first byte of the piece is not looked at. */
  ghost predicate GivesUp(h: Hints, tables: Tables, s: seq<Byte>, c: nat, opts: Options)
    requires tables.Sized()
  {
    && h.req >= 0 && |s| - c < REQ_BYTE_MAX && !opts.partial
    && forall k: nat :: c + (if h.first >= 0 then 1 else 0) <= k < |s| ==> !IsReq(h, tables, s[k])
  }

  /** A run from position `c` that finds nothing, with the states it leaves to the next. */
  ghost predicate Fruitless(m: Machine, alts: Alts, h: Hints, s: seq<Byte>, c: nat, opts: Options, size: nat,
                            limit: nat, vector: seq<int>, held: seq<State>, left: seq<State>)
    requires m.tables.Sized() && AltsOk(alts)
  {
    c <= |s| && !GivesUp(h, m.tables, s, c, opts)
    && Outcome(m, alts, s, held, c, opts, size, limit, vector, vector, NOMATCH, [], left)
  }

  /** The result of a restart at `from`. `trail` has the states held at that and, if the call is not anchored, at
      later start positions; all but the last run find nothing, and the last position gives up, or is past the end,
      or has the result. */
  ghost predicate RestartResult(m: Machine, alts: Alts, h: Hints, anchored: bool, s: seq<Byte>, from: nat,
                                opts: Options, size: nat, limit: nat, init: seq<State>, before: seq<int>,
                                after: seq<int>, rc: int, ends: seq<nat>, saved: seq<State>, trail: seq<seq<State>>)
    requires m.tables.Sized() && AltsOk(alts)
  {
    && trail != [] && trail[0] == init && (anchored ==> |trail| == 1)
    && (forall i :: 0 <= i < |trail| - 1
                    ==> Fruitless(m, alts, h, s, from + i, opts, size, limit, before, trail[i], trail[i + 1]))
    && var c, held := from + |trail| - 1, trail[|trail| - 1];
       if c > |s| || GivesUp(h, m.tables, s, c, opts) then
         rc == NOMATCH && after == before && c <= |s| + 1
       else
         && Outcome(m, alts, s, held, c, opts, size, limit, before, after, rc, ends, saved)
         && (rc == NOMATCH ==> anchored)
  }

  /** pcre_dfa_exec when restarting. */
  method DfaExecRestart(code: seq<Byte>, tables: Tables, ims: Ims, ghost alts: Alts, hints: Hints, s: seq<Byte>,
                        startOffset: nat, anchored: bool, opts: Options, offsets: array<int>, offsetcount: nat,
                        ws: Workspace)
    returns (rc: int, ghost ends: seq<nat>, ghost trail: seq<seq<State>>)
    requires AltsOk(alts) && Fits(ims, alts) && code == Pattern(ims, alts) && tables.Valid() && tables.Sized()
    requires startOffset <= |s| && offsetcount <= offsets.Length && ws.Valid() && opts.restart
    requires AllSane(PatternMachine(ims, tables, alts), alts, ws.Saved())
    modifies ws, ws.low, ws.high, ws.low.blocks, ws.high.blocks, offsets
    ensures ws.Valid()
    ensures RestartResult(PatternMachine(ims, tables, alts), alts, Effective(hints, anchored), anchored, s, startOffset,
                          opts, offsetcount - offsetcount % 2, ws.limit, old(ws.Saved()), old(offsets[..]),
                          offsets[..], rc, ends, ws.Saved(), trail)
  {
    hide MatchesAlts, Outcome, Tables.Valid, Fits, PatternMachine, Pattern, Branches, IsReq, Live, AllSane, Fruitless,
         GivesUp;
    CompiledMachine(ims, tables, alts);
    ghost var m, size := PatternMachine(ims, tables, alts), offsetcount - offsetcount % 2;
    var h := Effective(hints, anchored);
    var c, reqPtr := startOffset, startOffset - 1;
    ghost var before := offsets[..];
    ends, trail := [], [ws.Saved()];
    while true
      invariant startOffset <= c <= |s| && ws.Valid() && AllSane(m, alts, ws.Saved()) && offsets[..] == before
      invariant trail != [] && trail[0] == old(ws.Saved()) && c == startOffset + |trail| - 1
                && trail[|trail| - 1] == ws.Saved()
      invariant forall i :: 0 <= i < |trail| - 1
                            ==> Fruitless(m, alts, h, s, startOffset + i, opts, size, ws.limit, before, trail[i],
                                          trail[i + 1])
      invariant anchored ==> |trail| == 1
      invariant reqPtr >= startOffset ==> reqPtr < |s| && IsReq(h, tables, s[reqPtr])
      decreases |s| - c
    {
      if h.req >= 0 && |s| - c < REQ_BYTE_MAX && !opts.partial {
        var p: nat := c + (if h.first >= 0 then 1 else 0);
        if p > reqPtr {
          p := FindReq(h, tables, s, p);
          if p >= |s| {
            GaveUp(h, tables, s, c, opts);
            return NOMATCH, ends, trail;
          }
          reqPtr := p;
        }
        GoesOn(h, tables, s, c, opts, reqPtr);
      } else {
        Ignored(h, tables, s, c, opts);
      }
      ghost var held := ws.Saved();
      rc, ends := InternalDfaExec(code, tables, ims, alts, s, c, opts, offsets, offsetcount, ws);
      if rc != NOMATCH || anchored {
        return;
      }
      NothingLeft(m, alts, s, held, c, opts, size, ws.limit, before, offsets[..], ends, ws.Saved());
      assert Fruitless(m, alts, h, s, c, opts, size, ws.limit, before, held, ws.Saved()) by {
        FruitlessIs(m, alts, h, s, c, opts, size, ws.limit, before, held, ws.Saved());
      }
      trail := trail + [ws.Saved()];
      c := c + 1;
      if c > |s| {
        return;
      }
    }
  }

  lemma {:induction false} GaveUp(h: Hints, tables: Tables, s: seq<Byte>, c: nat, opts: Options)
    requires tables.Sized() && h.req >= 0 && |s| - c < REQ_BYTE_MAX && !opts.partial
    requires forall k: nat :: c + (if h.first >= 0 then 1 else 0) <= k < |s| ==> !IsReq(h, tables, s[k])
    ensures GivesUp(h, tables, s, c, opts)
  {}

  lemma {:induction false} GoesOn(h: Hints, tables: Tables, s: seq<Byte>, c: nat, opts: Options, p: nat)
    requires tables.Sized() && c + (if h.first >= 0 then 1 else 0) <= p < |s| && IsReq(h, tables, s[p])
    ensures !GivesUp(h, tables, s, c, opts)
  {}

  lemma {:induction false} Ignored(h: Hints, tables: Tables, s: seq<Byte>, c: nat, opts: Options)
    requires tables.Sized() && !(h.req >= 0 && |s| - c < REQ_BYTE_MAX && !opts.partial)
    ensures !GivesUp(h, tables, s, c, opts)
  {}

  lemma {:induction false} FruitlessIs(m: Machine, alts: Alts, h: Hints, s: seq<Byte>, c: nat, opts: Options, size: nat,
                                       limit: nat, vector: seq<int>, held: seq<State>, left: seq<State>)
    requires m.tables.Sized() && AltsOk(alts) && c <= |s| && !GivesUp(h, m.tables, s, c, opts)
    requires Outcome(m, alts, s, held, c, opts, size, limit, vector, vector, NOMATCH, [], left)
    ensures Fruitless(m, alts, h, s, c, opts, size, limit, vector, held, left)
  {}

  lemma {:induction false} NothingLeft(m: Machine, alts: Alts, s: seq<Byte>, init: seq<State>, start: nat,
                                       opts: Options, size: nat, limit: nat, before: seq<int>, after: seq<int>,
                                       ends: seq<nat>, saved: seq<State>)
    requires AltsOk(alts) && m.tables.Sized() && start <= |s|
    requires Outcome(m, alts, s, init, start, opts, size, limit, before, after, NOMATCH, ends, saved)
    ensures ends == [] && after == before && AllSane(m, alts, saved)
  {
    hide AllMatches, Live, Stored, AllSane, LeftOver, Ages, TooSmall;
    if ends == [] {
      assert Stored(after, before, size, start, []);
      StoredNothing(after, before, size, start);
    }
  }

  // ------------------------------------------------------------ when a restart is right

  /** The call returned the answer for all pieces so far. */
  ghost predicate RightAnswer(m: Machine, alts: Alts, prefix: seq<Byte>, s: seq<Byte>, start: nat, notEmpty: bool,
                              opts: Options, size: nat, limit: nat, before: seq<int>, after: seq<int>, rc: int)
    requires m.tables.Sized() && AltsOk(alts) && start <= |prefix|
  {
    exists ends, saved :: Answer(m, alts, prefix, s, 0, start, notEmpty, opts, size, limit, before, after, rc, ends,
                                 saved)
  }

  /** With nothing to report, "no match" is the one right answer; with a word, it is none. */
  lemma {:induction false} NoMatchRight(m: Machine, alts: Alts, prefix: seq<Byte>, s: seq<Byte>, start: nat,
                                        notEmpty: bool, opts: Options, size: nat, limit: nat, before: seq<int>,
                                        after: seq<int>, rc: int)
    requires Compiled(m, alts) && start <= |prefix| && rc != WSSIZE && size % 2 == 0 && size <= |before|
    requires opts.partial && s != [] ==> !StillLive(m, prefix + s, start)
    requires rc == NOMATCH ==> after == before
    ensures NoWordFrom(Implemented(m), alts, prefix + s, start, notEmpty) ==>
              (RightAnswer(m, alts, prefix, s, start, notEmpty, opts, size, limit, before, after, rc)
               <==> rc == NOMATCH)
    ensures !NoWordFrom(Implemented(m), alts, prefix + s, start, notEmpty) ==>
              (RightAnswer(m, alts, prefix, s, start, notEmpty, opts, size, limit, before, after, rc) ==> rc != NOMATCH)
  {
    hide MatchesAlts, Pending, Stored, StillLive, Tables.Valid, Fits, PatternMachine;
    var all, rd := prefix + s, Implemented(m);
    NoEndsNoWord(m, alts, all, start, notEmpty);
    var none: seq<nat> := [];
    assert Shifted(none, |prefix|) == none;
    if rc == NOMATCH && NoWordFrom(rd, alts, all, start, notEmpty) {
      StoredNone(before, size, 0);
      assert Answer(m, alts, prefix, s, 0, start, notEmpty, opts, size, limit, before, after, rc, none, []);
    }
    forall ends: seq<nat>, saved | Answer(m, alts, prefix, s, 0, start, notEmpty, opts, size, limit, before, after, rc,
                                          ends, saved)
      ensures rc == NOMATCH <==> NoWordFrom(rd, alts, all, start, notEmpty)
    {
      AnswerCount(m, alts, prefix, s, start, notEmpty, opts, size, limit, before, after, rc, ends, saved);
    }
  }

  lemma {:induction false} AnswerCount(m: Machine, alts: Alts, prefix: seq<Byte>, s: seq<Byte>, start: nat,
                                       notEmpty: bool, opts: Options, size: nat, limit: nat, before: seq<int>,
                                       after: seq<int>, rc: int, ends: seq<nat>, saved: seq<State>)
    requires Compiled(m, alts) && start <= |prefix| && rc != WSSIZE
             && (opts.partial && s != [] ==> !StillLive(m, prefix + s, start))
    requires Answer(m, alts, prefix, s, 0, start, notEmpty, opts, size, limit, before, after, rc, ends, saved)
    ensures rc == NOMATCH <==> NoWordFrom(Implemented(m), alts, prefix + s, start, notEmpty)
  {
    hide MatchesAlts, Pending, Stored, StillLive, Tables.Valid, Fits, PatternMachine;
    var all, rd := prefix + s, Implemented(m);
    if EndsOfWords(rd, alts, all, start, notEmpty, Shifted(ends, |prefix|)) && rc == CountFor(|ends|, size) {
      if ends == [] {
        assert Shifted(ends, |prefix|) == [];
        NoEndsNoWord(m, alts, all, start, notEmpty);
      } else {
        assert Shifted(ends, |prefix|)[0] in Shifted(ends, |prefix|);
      }
    }
  }

  /** A restart after a partial match is right exactly if, where it gives up, there is indeed no word, and where it
      goes on to later start positions, with the states left over, it finds nothing there. */
  lemma {:induction false} RestartExact(m: Machine, alts: Alts, h: Hints, anchored: bool, prefix: seq<Byte>,
                                        s: seq<Byte>, start: nat, notEmpty: bool, opts: Options, size: nat, limit: nat,
                                        init: seq<State>, before: seq<int>, after: seq<int>, rc: int, ends: seq<nat>,
                                        saved: seq<State>, trail: seq<seq<State>>)
    requires Compiled(m, alts) && Pending(m, alts, prefix, start, notEmpty, init) && rc != WSSIZE && size % 2 == 0
             && size <= |before|
    requires RestartResult(m, alts, h, anchored, s, 0, opts, size, limit, init, before, after, rc, ends, saved, trail)
    ensures RightAnswer(m, alts, prefix, s, start, notEmpty, opts, size, limit, before, after, rc) <==>
              if GivesUp(h, m.tables, s, 0, opts) then NoWordFrom(Implemented(m), alts, prefix + s, start, notEmpty)
              else |trail| == 1 || rc == NOMATCH
  {
    hide MatchesAlts, Outcome, Answer, Tables.Valid, Fits, PatternMachine, GivesUp, NoWordFrom, StillLive, AllMatches,
         Stands, Young;
    assert |trail| > 1 ==> Fruitless(m, alts, h, s, 0 + 0, opts, size, limit, before, trail[0], trail[1]);
    if GivesUp(h, m.tables, s, 0, opts) {
      NotPartial(h, m.tables, s, 0, opts);
      NoMatchRight(m, alts, prefix, s, start, notEmpty, opts, size, limit, before, after, rc);
    } else if |trail| == 1 {
      ResumedRight(m, alts, prefix, s, start, notEmpty, init, opts, size, limit, before, after, rc, ends, saved);
    } else {
      ResumedRight(m, alts, prefix, s, start, notEmpty, init, opts, size, limit, before, before, NOMATCH, [], trail[1]);
      if rc == NOMATCH {
        LastNothing(m, alts, h, anchored, s, 0, opts, size, limit, init, before, after, ends, saved, trail);
      }
      NoMatchRight(m, alts, prefix, s, start, notEmpty, opts, size, limit, before, after, rc);
    }
  }

  lemma {:induction false} NotPartial(h: Hints, tables: Tables, s: seq<Byte>, c: nat, opts: Options)
    requires tables.Sized() && GivesUp(h, tables, s, c, opts)
    ensures !opts.partial
  {}

  lemma {:induction false} LastNothing(m: Machine, alts: Alts, h: Hints, anchored: bool, s: seq<Byte>, from: nat,
                                       opts: Options, size: nat, limit: nat, init: seq<State>, before: seq<int>,
                                       after: seq<int>, ends: seq<nat>, saved: seq<State>, trail: seq<seq<State>>)
    requires m.tables.Sized() && AltsOk(alts)
    requires RestartResult(m, alts, h, anchored, s, from, opts, size, limit, init, before, after, NOMATCH, ends, saved,
                           trail)
    ensures after == before
  {
    hide Outcome, GivesUp, Fruitless;
    var c, held := from + |trail| - 1, trail[|trail| - 1];
    if !(c > |s| || GivesUp(h, m.tables, s, c, opts)) {
      NothingLeft(m, alts, s, held, c, opts, size, limit, before, after, ends, saved);
    }
  }

  /** Giving up is right if the part of the subject that is not looked at has no required byte either. */
  lemma {:induction false} GivesUpRight(m: Machine, alts: Alts, h: Hints, prefix: seq<Byte>, s: seq<Byte>, start: nat,
                                        notEmpty: bool, opts: Options)
    requires Compiled(m, alts) && HintsHold(h, Implemented(m), alts) && start < |prefix|
             && GivesUp(h, m.tables, s, 0, opts)
    requires forall k :: start + (if h.first >= 0 then 1 else 0) <= k < |prefix| ==> !IsReq(h, m.tables, prefix[k])
    requires h.first >= 0 && s != [] ==> !IsReq(h, m.tables, s[0])
    ensures NoWordFrom(Implemented(m), alts, prefix + s, start, notEmpty)
  {
    hide MatchesAlts, HintsHold, IsReq, NoWordFrom, Tables.Valid, Fits, PatternMachine;
    var all := prefix + s;
    forall k | start + (if h.first >= 0 then 1 else 0) <= k < |all| ensures !IsReq(h, m.tables, all[k]) {
      if k >= |prefix| {
        assert all[k] == s[k - |prefix|];
      }
    }
    HintsExclude(h, Implemented(m), alts, all, start, notEmpty);
  }
}
