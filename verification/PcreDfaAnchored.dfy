/** Anchored restarts, by their input: which pieces are always answered rightly, whatever the pattern and whatever the
    pieces before. */
module PcreDfaAnchored {
  import opened Basics
  import opened PcreBytecode
  import opened PcreDfaMachine
  import opened PcreLanguage
  import opened PcreDfaSteps
  import opened PcreDfaLanguage
  import opened PcreDfaOffsets
  import opened PcreDfaRun
  import opened PcreDfaRestart
  import opened PcreDfaScan
  import opened PcreDfaExec
  import opened PcreDfaTop
  import opened PcreDfaPieces
  import opened PcreDfaGuard
  import opened PcreCharacters

  /** All anchored restarts with these hints and options over this piece are right. */
  ghost predicate PieceRight(tables: Tables, h: Hints, s: seq<Byte>, opts: Options) {
    forall c: Case :: Happens(c, true) && c.m.tables == tables && c.h == h && c.s == s && c.opts == opts ==> Right(c)
  }

  /** They are right exactly if the piece is empty, or the required byte is not looked for, or it is in the piece. */
  lemma {:induction false} PieceGuard(tables: Tables, h: Hints, s: seq<Byte>, opts: Options)
    requires tables.Valid() && tables.Sized() && h.first < 0 && h.req < 256 && opts.restart
    ensures PieceRight(tables, h, s, opts) <==>
              || s == [] || opts.partial || h.req < 0 || |s| >= 1000
              || exists k :: 0 <= k < |s| && (s[k] == h.req || (h.reqCaseless && s[k] == tables.fcc[h.req]))
  {
    hide Happens, Right, GivesUp, Tables.Valid;
    GivesUpIs(tables, h, s, opts);
    if s == [] || !GivesUp(h, tables, s, 0, opts) {
      forall c: Case | Happens(c, true) && c.m.tables == tables && c.h == h && c.s == s && c.opts == opts
        ensures Right(c) {
        StaysRight(c);
      }
    } else {
      var c := PairWrong(tables, h, s, opts);
    }
  }

  lemma {:induction false} GivesUpIs(tables: Tables, h: Hints, s: seq<Byte>, opts: Options)
    requires tables.Sized() && h.first < 0 && h.req < 256
    ensures GivesUp(h, tables, s, 0, opts) <==>
              && !opts.partial && h.req >= 0 && |s| < 1000
              && forall k :: 0 <= k < |s| ==> s[k] != h.req && !(h.reqCaseless && s[k] == tables.fcc[h.req])
  {}

  lemma {:induction false} StaysRight(c: Case)
    requires Happens(c, true) && c.m.tables.Sized() && (c.s == [] || !GivesUp(c.h, c.m.tables, c.s, 0, c.opts))
    ensures Right(c)
  {
    hide MatchesAlts, Outcome, Answer, Tables.Valid, Fits, PatternMachine, Stands, Young, HintsHold, RightAnswer,
         GivesUp, AllMatches, TooSmall;
    RestartExact(c.m, c.alts, c.h, true, c.prefix, c.s, c.start, c.notEmpty, c.opts, c.size, c.limit, c.init, c.before,
                 c.after, c.rc, c.ends, c.saved, c.trail);
    if c.s == [] {
      MatchesAreWords(c.m, c.alts, c.prefix, c.start, c.notEmpty, []);
      NoEndsNoWord(c.m, c.alts, c.prefix, c.start, c.notEmpty);
      assert c.prefix + c.s == c.prefix;
    }
  }

  // ------------------------------------------------------------ the required byte, and the first of the piece

  ghost function PairMachine(tables: Tables, r: Byte, x: Byte): (m: Machine)
    ensures m.tables == tables && m.ims == Plain()
  {
    PatternMachine(Plain(), tables, PairAlts(r, x))
  }

  lemma {:induction false} PairCode(tables: Tables, r: Byte, x: Byte)
    requires tables.Valid() && tables.Sized()
    ensures PairMachine(tables, r, x).code == [80, 0, 7, 21, r, 21, x, 66, 0, 7, 0]
    ensures PairMachine(tables, r, x).endKet == 7
    ensures Compiled(PairMachine(tables, r, x), PairAlts(r, x))
  {
    hide Tables.Valid;
    var ims, first, second := Plain(), Chr(Lit(r), One), Chr(Lit(x), One);
    assert Code(ims, first) == [21, r] && Code(ims, second) == [21, x];
    assert Code(ims, Cat(first, second)) == [21, r, 21, x];
    assert AltsCode(ims, PairAlts(r, x), OP_BRA) == [80, 0, 7, 21, r, 21, x];
  }

  lemma {:induction false} PairSteps(tables: Tables, r: Byte, x: Byte, c: Byte)
    requires tables.Valid() && tables.Sized()
    ensures var m := PairMachine(tables, r, x);
            && m.tables == tables && Branches(m.code, 0) == [State(3, 0)] && End(m) == State(7, 0)
            && Active(m, State(3, 0)) == [] && New(m, State(3, 0), c) == (if c == r then [State(5, 0)] else [])
            && Active(m, State(5, 0)) == []
  {
    hide Tables.Valid;
    PairCode(tables, r, x);
  }

  lemma {:induction false} PairSane(tables: Tables, r: Byte, x: Byte)
    requires tables.Valid() && tables.Sized()
    ensures Sane(PairMachine(tables, r, x), PairAlts(r, x), State(5, 0)) && |PairMachine(tables, r, x).code| == 11
  {
    hide Tables.Valid;
    PairCode(tables, r, x);
    var ims, first, second := Plain(), Chr(Lit(r), One), Chr(Lit(x), One);
    assert Code(ims, first) == [21, r];
    assert State(5, 0).offset in Offsets(ims, second, 5);
    assert State(5, 0).offset in Offsets(ims, Cat(first, second), 3);
  }

  lemma {:induction false} PairLive(tables: Tables, r: Byte, x: Byte, b: State, j: nat)
    requires tables.Valid() && tables.Sized()
    requires var m := PairMachine(tables, r, x); Live(m, [r], Branches(m.code, 0), 0, b, j)
    ensures j <= 1 && b == State(3 + 2 * j, 0)
  {
    hide Active, New, Branches, PairMachine, Live, Tables.Valid;
    var m := PairMachine(tables, r, x);
    PairSteps(tables, r, x, r);
    CoversLive(m, [r], Branches(m.code, 0), 0, [{State(3, 0)}, {State(5, 0)}], {}, b, j);
  }

  lemma {:induction false} PairPending(tables: Tables, r: Byte, x: Byte)
    requires tables.Valid() && tables.Sized()
    ensures Pending(PairMachine(tables, r, x), PairAlts(r, x), [r], 0, false, [State(5, 0)])
  {
    hide Active, New, Branches, PairMachine, Live, Tables.Valid;
    var m, s: seq<Byte>, saved := PairMachine(tables, r, x), [r], [State(5, 0)];
    PairSane(tables, r, x);
    PairSteps(tables, r, x, r);
    assert Step(m, s, State(3, 0), 0, State(5, 0), 1);
    ReachesSelf(m, s, State(3, 0), 0);
    ReachesStep(m, s, State(3, 0), 0, State(3, 0), 0, State(5, 0), 1);
    LiveIntro(m, s, Branches(m.code, 0), 0, State(3, 0), State(5, 0), 1);
    forall b ensures Live(m, s, Branches(m.code, 0), 0, b, 1) <==> Live(m, s, saved, 1, b, 1) {
      if Live(m, s, Branches(m.code, 0), 0, b, 1) {
        PairLive(tables, r, x, b, 1);
        ReachesSelf(m, s, State(5, 0), 1);
        LiveIntro(m, s, saved, 1, State(5, 0), State(5, 0), 1);
      }
      if Live(m, s, saved, 1, b, 1) {
        CoversLive(m, s, saved, 1, [{State(5, 0)}], {}, b, 1);
      }
    }
    forall e: nat ensures !Live(m, s, Branches(m.code, 0), 0, End(m), e) {
      if Live(m, s, Branches(m.code, 0), 0, End(m), e) {
        PairLive(tables, r, x, End(m), e);
      }
    }
  }

  lemma {:induction false} PairHints(tables: Tables, h: Hints, x: Byte)
    requires tables.Sized() && h.first < 0 && 0 <= h.req < 256
    ensures HintsHold(h, Reading(false, Plain(), tables), PairAlts(h.req, x))
  {
    var rd := Reading(false, Plain(), tables);
    forall s, i: nat, j: nat | MatchesAlts(rd, PairAlts(h.req, x), s, i, j)
      ensures i < |s| && IsReq(h, rd.tables, s[i]) {
      var first, second := Chr(Lit(h.req), One), Chr(Lit(x), One);
      assert Matches(rd, Cat(first, second), s, i, j);
      var y: nat :| Matches(rd, first, s, i, y) && Matches(rd, second, s, y, j);
      OneLetter(rd, h.req, s, i, y);
    }
  }

  lemma {:induction false} PairWord(tables: Tables, r: Byte, x: Byte, s: seq<Byte>)
    requires tables.Sized() && |s| >= 2 && s[0] == r && s[1] == x
    ensures MatchesAlts(Reading(false, Plain(), tables), PairAlts(r, x), s, 0, 2)
  {
    var rd, first, second := Reading(false, Plain(), tables), Chr(Lit(r), One), Chr(Lit(x), One);
    assert Matches(rd, second, s, 1, 2);
    assert Matches(rd, first, s, 0, 1);
    assert Matches(rd, Cat(first, second), s, 0, 2);
  }

  lemma {:induction false} PairRoom(tables: Tables, r: Byte, x: Byte, left: nat) returns (limit: nat)
    requires tables.Valid() && tables.Sized()
    ensures limit >= 2 && !TooSmall(PairMachine(tables, r, x), [State(5, 0)], left, limit)
  {
    hide PairMachine, Tables.Valid;
    var m := PairMachine(tables, r, x);
    PairSane(tables, r, x);
    assert Young(m, [State(5, 0)], 1);
    limit := SpaceBound(|m.code|, 1 + left) + 2;
  }

  /** The required byte, and then the first of the piece: after the one, a restart over the piece gives up. */
  lemma {:induction false} PairWrong(tables: Tables, h: Hints, s: seq<Byte>, opts: Options) returns (c: Case)
    requires tables.Valid() && tables.Sized() && h.first < 0 && h.req < 256 && opts.restart && s != []
    requires GivesUp(h, tables, s, 0, opts)
    ensures Happens(c, true) && c.m.tables == tables && c.h == h && c.s == s && c.opts == opts && !Right(c)
  {
    hide Active, New, Branches, PairMachine, Live, HintsHold, Pending, Answer, Young, AllSane, Tables.Valid, Fits,
         PatternMachine, MatchesAlts, Outcome, TooSmall;
    var r: Byte, x, saved := h.req, s[0], [State(5, 0)];
    var m, alts := PairMachine(tables, r, x), PairAlts(r, x);
    PairCode(tables, r, x);
    PairPending(tables, r, x);
    PairHints(tables, h, x);
    PairWord(tables, r, x, [r] + s);
    var limit := PairRoom(tables, r, x, |s|);
    c := Case(m, alts, h, [r], s, 0, false, opts, 0, limit, saved, [], [], NOMATCH, [], saved, [saved]);
    RestartExact(m, alts, h, true, [r], s, 0, false, opts, 0, limit, saved, [], [], NOMATCH, [], saved, c.trail);
  }
}
