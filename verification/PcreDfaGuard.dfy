/** When a restart can be relied on: for which calls it always is the answer for all pieces, with subjects for which
    it is not. */
module PcreDfaGuard {
  import opened Basics
  import opened PcreBytecode
  import opened PcreDfaMachine
  import opened PcreLanguage
  import opened PcreReadings
  import opened PcreDfaSteps
  import opened PcreDfaLanguage
  import opened PcreDfaOffsets
  import opened PcreDfaRun
  import opened PcreDfaRestart
  import opened PcreDfaScan
  import opened PcreDfaExec
  import opened PcreDfaTop
  import opened PcreDfaPieces

  // ------------------------------------------------------------ when every restart is right

  /** A restart after a partial match, with all it depends on and its result. */
  datatype Case = Case(m: Machine, alts: Alts, h: Hints, prefix: seq<Byte>, s: seq<Byte>, start: nat, notEmpty: bool,
                       opts: Options, size: nat, limit: nat, init: seq<State>, before: seq<int>, after: seq<int>,
                       rc: int, ends: seq<nat>, saved: seq<State>, trail: seq<seq<State>>)

  /** Such a restart can happen, with room enough for whatever the run holds: hints that hold, states a partial match
      has left, and a result for them. */
  ghost predicate Happens(c: Case, anchored: bool) {
    && Compiled(c.m, c.alts) && HintsHold(c.h, Implemented(c.m), c.alts) && (anchored ==> c.h.first < 0)
    && Pending(c.m, c.alts, c.prefix, c.start, c.notEmpty, c.init) && c.opts.restart && c.rc != WSSIZE
    && c.size % 2 == 0 && c.size <= |c.before| && c.limit >= 2 && !TooSmall(c.m, c.init, |c.s|, c.limit)
    && RestartResult(c.m, c.alts, c.h, anchored, c.s, 0, c.opts, c.size, c.limit, c.init, c.before, c.after, c.rc,
                     c.ends, c.saved, c.trail)
  }

  ghost predicate Right(c: Case) {
    && c.m.tables.Sized() && AltsOk(c.alts) && c.start <= |c.prefix|
    && RightAnswer(c.m, c.alts, c.prefix, c.s, c.start, c.notEmpty, c.opts, c.size, c.limit, c.before, c.after, c.rc)
  }

  /** Restarts with these options, of patterns with or without a required byte, are always right. */
  ghost predicate AlwaysRight(anchored: bool, partial: bool, required: bool) {
    forall c: Case :: Happens(c, anchored) && c.opts.partial == partial && (c.h.req >= 0 ==> required) ==> Right(c)
  }

  /** Exactly the anchored restarts that ask for partial matches, or have no required byte, are always right. */
  lemma {:induction false} RestartGuard(anchored: bool, partial: bool, required: bool)
    ensures AlwaysRight(anchored, partial, required) <==> anchored && (partial || !required)
  {
    hide Happens, Right;
    if anchored && (partial || !required) {
      forall c: Case | Happens(c, anchored) && c.opts.partial == partial && (c.h.req >= 0 ==> required)
        ensures Right(c) {
        GuardRight(c);
      }
    } else if !anchored {
      var c := AbWrong(partial, required);
    } else {
      var c := AbAnyWrong();
    }
  }

  lemma {:induction false} GuardRight(c: Case)
    requires Happens(c, true) && (c.opts.partial || c.h.req < 0)
    ensures Right(c)
  {
    hide MatchesAlts, Outcome, Answer, Tables.Valid, Fits, PatternMachine, AllMatches, Stands, Young, HintsHold,
         RightAnswer;
    RestartExact(c.m, c.alts, c.h, true, c.prefix, c.s, c.start, c.notEmpty, c.opts, c.size, c.limit, c.init, c.before,
                 c.after, c.rc, c.ends, c.saved, c.trail);
  }

  // ------------------------------------------------------------ restarts that go wrong

  /** The pattern `ab`. */
  function AbAlts(): Alts { Last(Cat(Chr(Lit(97), One), Chr(Lit(98), One))) }

  ghost function AbMachine(): (m: Machine)
    ensures m.tables.Sized() && !m.ims.Nonzero()
  {
    PatternMachine(Ims(false, false, false), AsciiTables(), AbAlts())
  }

  lemma {:induction false} AbCode()
    ensures AbMachine().code == [80, 0, 7, 21, 97, 21, 98, 66, 0, 7, 0] && AbMachine().endKet == 7
    ensures Compiled(AbMachine(), AbAlts())
  {
    var ims := Ims(false, false, false);
    var first, second := Chr(Lit(97), One), Chr(Lit(98), One);
    assert Code(ims, first) == [21, 97] && Code(ims, second) == [21, 98];
    assert Code(ims, Cat(first, second)) == [21, 97, 21, 98];
    assert AltsCode(ims, AbAlts(), OP_BRA) == [80, 0, 7, 21, 97, 21, 98];
  }

  lemma {:induction false} AbSteps(c: Byte)
    ensures var m := AbMachine();
            && Branches(m.code, 0) == [State(3, 0)]
            && Active(m, State(3, 0)) == [] && New(m, State(3, 0), c) == (if c == 97 then [State(5, 0)] else [])
            && Active(m, State(5, 0)) == [] && New(m, State(5, 0), c) == (if c == 98 then [End(m)] else [])
  {
    AbCode();
  }

  lemma {:induction false} LiveIntro(m: Machine, s: seq<Byte>, init: seq<State>, i: nat, a: State, b: State, j: nat)
    requires m.tables.Sized() && a in init && Reaches(m, s, a, i, b, j)
    ensures Live(m, s, init, i, b, j)
  {
    hide Reaches;
  }

  lemma {:induction false} OneLetter(rd: Reading, d: Byte, s: seq<Byte>, i: nat, j: nat)
    requires rd.tables.Sized() && !rd.ims.Nonzero() && Matches(rd, Chr(Lit(d), One), s, i, j)
    ensures j == i + 1 && j <= |s| && s[i] == d
  {}

  function Plain(): Ims { Ims(false, false, false) }

  lemma {:induction false} AbWords(s: seq<Byte>, i: nat, j: nat)
    requires MatchesAlts(Implemented(AbMachine()), AbAlts(), s, i, j)
    ensures j == i + 2 && j <= |s| && s[i] == 97 && s[i + 1] == 98
  {
    var rd, first, second := Implemented(AbMachine()), Chr(Lit(97), One), Chr(Lit(98), One);
    assert Matches(rd, Cat(first, second), s, i, j);
    var h: nat :| Matches(rd, first, s, i, h) && Matches(rd, second, s, h, j);
    OneLetter(rd, 97, s, i, h);
    OneLetter(rd, 98, s, h, j);
  }

  /** What the compiler knows of `ab`, if it is asked. */
  function AbHints(required: bool): Hints {
    if required then Hints(97, false, 98, false) else Hints(-1, false, -1, false)
  }

  lemma {:induction false} AbHintsHold(required: bool)
    ensures HintsHold(AbHints(required), Implemented(AbMachine()), AbAlts())
  {
    hide MatchesAlts, AbMachine;
    var rd := Implemented(AbMachine());
    forall s, i: nat, j: nat | MatchesAlts(rd, AbAlts(), s, i, j)
      ensures i + 1 < |s| && IsFirst(Hints(97, false, 98, false), rd.tables, s[i])
              && IsReq(Hints(97, false, 98, false), rd.tables, s[i + 1])
    {
      AbWords(s, i, j);
    }
  }

  /** As long as no "b" follows it, an "a" leads to the state that waits for one, and no further. */
  lemma {:induction false} AbLive(s: seq<Byte>, b: State, j: nat)
    requires |s| > 0 && s[0] == 97 && (|s| > 1 ==> s[1] != 98)
    requires Live(AbMachine(), s, Branches(AbMachine().code, 0), 0, b, j)
    ensures if j == 0 then b == State(3, 0) else j == 1 && b == State(5, 0)
  {
    hide Active, New, Branches, AbMachine, Live;
    AbSteps(97);
    if |s| > 1 {
      AbSteps(s[1]);
    }
    CoversLive(AbMachine(), s, Branches(AbMachine().code, 0), 0, [{State(3, 0)}, {State(5, 0)}], {}, b, j);
  }

  lemma {:induction false} AbPartial(s: seq<Byte>)
    requires |s| > 0 && s[0] == 97
    ensures Live(AbMachine(), s, Branches(AbMachine().code, 0), 0, State(5, 0), 1)
  {
    hide Active, New, Branches, AbMachine, Live;
    var m := AbMachine();
    AbSteps(97);
    assert Step(m, s, State(3, 0), 0, State(5, 0), 1);
    ReachesSelf(m, s, State(3, 0), 0);
    ReachesStep(m, s, State(3, 0), 0, State(3, 0), 0, State(5, 0), 1);
    LiveIntro(m, s, Branches(m.code, 0), 0, State(3, 0), State(5, 0), 1);
  }

  /** The state that waits for a "b", elsewhere. */
  lemma {:induction false} AbWaits(s: seq<Byte>, i: nat, b: State, j: nat)
    requires i < |s| && (s[i] == 98 && i + 1 < |s| ==> s[i + 1] == 98)
    ensures var saved := [State(5, 0)];
            Live(AbMachine(), s, saved, i, b, j) <==> (j == i && b == State(5, 0))
                                                      || (s[i] == 98 && j == i + 1 && b == End(AbMachine()))
  {
    hide Active, New, Branches, AbMachine, Live;
    var m, saved := AbMachine(), [State(5, 0)];
    AbSteps(s[i]);
    AbEnd(98);
    if Live(m, s, saved, i, b, j) {
      CoversLive(m, s, saved, i, if s[i] == 98 then [{State(5, 0)}, {End(m)}] else [{State(5, 0)}], {}, b, j);
    }
    ReachesSelf(m, s, State(5, 0), i);
    LiveIntro(m, s, saved, i, State(5, 0), State(5, 0), i);
    if s[i] == 98 {
      assert Step(m, s, State(5, 0), i, End(m), i + 1);
      ReachesStep(m, s, State(5, 0), i, State(5, 0), i, End(m), i + 1);
      LiveIntro(m, s, saved, i, State(5, 0), End(m), i + 1);
    }
  }

  lemma {:induction false} AbEnd(c: Byte)
    ensures Active(AbMachine(), End(AbMachine())) == [] && New(AbMachine(), End(AbMachine()), c) == []
    ensures End(AbMachine()) == State(7, 0)
  {
    AbCode();
  }

  lemma {:induction false} AbSane()
    ensures Sane(AbMachine(), AbAlts(), State(5, 0)) && |AbMachine().code| == 11
  {
    AbCode();
    var ims := Plain();
    var first, second := Chr(Lit(97), One), Chr(Lit(98), One);
    assert Code(ims, first) == [21, 97];
    assert State(5, 0).offset in Offsets(ims, second, 5);
    assert State(5, 0).offset in Offsets(ims, Cat(first, second), 3);
  }

  /** "a" leaves a partial match of `ab`. */
  lemma {:induction false} AbPending()
    ensures Pending(AbMachine(), AbAlts(), [97], 0, false, [State(5, 0)])
  {
    hide Active, New, Branches, AbMachine, Live;
    var m, s: seq<Byte>, saved := AbMachine(), [97], [State(5, 0)];
    AbSane();
    AbPartial(s);
    AbEnd(0);
    forall b ensures Live(m, s, Branches(m.code, 0), 0, b, 1) <==> Live(m, s, saved, 1, b, 1) {
      if Live(m, s, Branches(m.code, 0), 0, b, 1) {
        AbLive(s, b, 1);
        ReachesSelf(m, s, State(5, 0), 1);
        LiveIntro(m, s, saved, 1, State(5, 0), State(5, 0), 1);
      }
      if Live(m, s, saved, 1, b, 1) {
        LiveElsewhere(m, s, [120], saved, 1, b, 0);
        AbWaits([120], 0, b, 0);
      }
    }
    forall e: nat | Live(m, s, Branches(m.code, 0), 0, End(m), e) ensures false {
      AbLive(s, End(m), e);
    }
  }

  /** Over "xbb" the waiting state finds nothing at once, and stays; one position on it takes the first "b" for the
      end of a word, though "axbb" has no word of `ab`. */
  lemma {:induction false} AbWrong(partial: bool, required: bool) returns (c: Case)
    ensures Happens(c, false) && c.opts.partial == partial && (c.h.req >= 0 ==> required) && !Right(c)
    ensures c.m == AbMachine() && c.alts == AbAlts() && c.h == AbHints(required) && c.prefix == [97]
            && c.s == [120, 98, 98] && c.rc == 1
  {
    hide Active, New, Branches, AbMachine, Live, HintsHold, Pending, Answer, Young, AllSane, Tables.Valid, Fits,
         PatternMachine, NoWordFrom, MatchesAlts, TooSmall;
    var m, s: seq<Byte>, saved, opts := AbMachine(), [120, 98, 98], [State(5, 0)], Options(false, false, partial, true);
    AbCode();
    AbPending();
    AbHintsHold(required);
    AbFruitless(opts, AbHints(required));
    AbHit(opts);
    AbRoom(saved, 3, 1000);
    c := Case(m, AbAlts(), AbHints(required), [97], s, 0, false, opts, 2, 1000, saved, [0, 0], [1, 2], 1, [2], saved,
              [saved, saved]);
    assert s[2] == 98 && IsReq(AbHints(true), m.tables, s[2]);
    assert !GivesUp(c.h, m.tables, s, 0, opts) && !GivesUp(c.h, m.tables, s, 1, opts);
    RestartExact(m, c.alts, c.h, false, c.prefix, s, 0, false, opts, 2, 1000, saved, c.before, c.after, c.rc, c.ends,
                 saved, c.trail);
  }

  lemma {:induction false} AbFruitless(opts: Options, h: Hints)
    requires !opts.notEmpty && h.req in {-1, 98}
    ensures Fruitless(AbMachine(), AbAlts(), h, [120, 98, 98], 0, opts, 2, 1000, [0, 0], [State(5, 0)], [State(5, 0)])
  {
    hide Active, New, Branches, AbMachine, Live, Tables.Valid, Fits, PatternMachine;
    var m, s: seq<Byte>, saved := AbMachine(), [120, 98, 98], [State(5, 0)];
    AbSane();
    AbEnd(0);
    assert IsReq(Hints(-1, false, 98, false), m.tables, s[2]) && s[2] == 98;
    forall b, j: nat ensures Live(m, s, saved, 0, b, j) <==> j == 0 && b == State(5, 0) {
      AbWaits(s, 0, b, j);
    }
    SameAge(m, saved);
    AgesLonger(m, saved, saved, 0, 3);
    assert LeftAt(m, s, saved, 0, saved, 0);
    StoredNone([0, 0], 2, 0);
  }

  lemma {:induction false} AbHit(opts: Options)
    requires !opts.notEmpty && !opts.shortest
    ensures Outcome(AbMachine(), AbAlts(), [120, 98, 98], [State(5, 0)], 1, opts, 2, 1000, [0, 0], [1, 2], 1, [2],
                    [State(5, 0)])
  {
    hide Active, New, Branches, AbMachine, Live, Tables.Valid, Fits, PatternMachine;
    var m, s: seq<Byte>, saved := AbMachine(), [120, 98, 98], [State(5, 0)];
    AbEnd(0);
    forall b, j: nat ensures Live(m, s, saved, 1, b, j) <==> (j == 1 && b == State(5, 0)) || (j == 2 && b == End(m)) {
      AbWaits(s, 1, b, j);
    }
  }

  /** Even the "b" alone is missed after "a": with a known first byte the search for the required byte begins one
      byte on. */
  lemma {:induction false} AbFirstByteMissed() returns (c: Case)
    ensures Happens(c, false) && !c.opts.partial && c.h == AbHints(true) && !Right(c)
    ensures c.m == AbMachine() && c.alts == AbAlts() && c.prefix == [97] && c.s == [98] && c.rc == NOMATCH
  {
    hide Active, New, Branches, AbMachine, Live, HintsHold, Pending, Answer, Young, AllSane, Tables.Valid, Fits,
         PatternMachine, MatchesAlts, Outcome, TooSmall;
    var m, s: seq<Byte>, saved, opts := AbMachine(), [98], [State(5, 0)], Options(false, false, false, true);
    AbCode();
    AbPending();
    AbHintsHold(true);
    AbWord();
    AbRoom(saved, 1, 1000);
    c := Case(m, AbAlts(), AbHints(true), [97], s, 0, false, opts, 0, 1000, saved, [], [], NOMATCH, [], saved, [saved]);
    assert GivesUp(c.h, m.tables, s, 0, opts);
    assert [97] + s == [97, 98];
    RestartExact(m, c.alts, c.h, false, c.prefix, s, 0, false, opts, 0, 1000, saved, c.before, c.after, NOMATCH, c.ends,
                 saved, c.trail);
  }

  lemma {:induction false} AbWord()
    ensures MatchesAlts(Implemented(AbMachine()), AbAlts(), [97, 98], 0, 2)
  {
    var rd, s: seq<Byte>, first, second := Implemented(AbMachine()), [97, 98], Chr(Lit(97), One), Chr(Lit(98), One);
    assert Matches(rd, second, s, 1, 2);
    assert Matches(rd, first, s, 0, 1);
    assert Matches(rd, Cat(first, second), s, 0, 2);
  }

  /** The first call on "a" returns a partial match. */
  lemma {:induction false} AbFirst(opts: Options, size: nat, limit: nat, before: seq<int>, after: seq<int>, rc: int,
                                   cur: nat, ends: seq<nat>, saved: seq<State>)
    requires Compiled(AbMachine(), AbAlts()) && opts.partial && !opts.shortest && !opts.notEmpty && limit >= 1000
    requires Leftmost(AbMachine(), AbAlts(), AbHints(true), [97], 0, opts, false, size, limit, before, after, rc, cur,
                      ends, saved)
    ensures rc == PARTIAL && Pending(AbMachine(), AbAlts(), [97], 0, false, saved)
  {
    hide Active, New, Branches, AbMachine, Live, Outcome, Pending, MatchesAlts, NoWordFrom, Compiled;
    var m, s: seq<Byte> := AbMachine(), [97];
    AbSane();
    AbPartial(s);
    assert HasPartial(m, s, 0) && IsFirst(AbHints(true), m.tables, s[0]);
    assert cur > 0 ==> Missed(m, AbAlts(), AbHints(true), s, 0, opts);
    FirstRight(m, AbAlts(), s, 0, opts, size, limit, before, after, rc, ends, saved);
    assert [] + s == s;
    forall e: nat ensures !MatchesAlts(Implemented(m), AbAlts(), s, 0, e) {
      if MatchesAlts(Implemented(m), AbAlts(), s, 0, e) {
        AbWords(s, 0, e);
      }
    }
    NotShifted(ends);
    NoneIn(ends);
    assert StillLive(m, s, 0);
  }

  /** The second call, on "xb", returns one match, whatever the states held. */
  lemma {:induction false} AbSecond(opts: Options, limit: nat, init: seq<State>, before: seq<int>, after: seq<int>,
                                    rc: int, ends: seq<nat>, saved: seq<State>, trail: seq<seq<State>>)
    requires Compiled(AbMachine(), AbAlts()) && opts.partial && !opts.shortest && !opts.notEmpty && limit >= 1000
    requires Pending(AbMachine(), AbAlts(), [97], 0, false, init)
    requires RestartResult(AbMachine(), AbAlts(), AbHints(true), false, [120, 98], 0, opts, 2, limit, init, before,
                           after, rc, ends, saved, trail)
    ensures rc == 1
  {
    hide Active, New, Branches, AbMachine, Live, Outcome, Pending, Compiled, Fruitless;
    var m, s: seq<Byte> := AbMachine(), [120, 98];
    if |trail| == 1 {
      AbNothingFirst(opts, limit, init, before, after, rc, ends, saved);
    } else {
      assert Fruitless(m, AbAlts(), AbHints(true), s, 0 + 0, opts, 2, limit, before, trail[0], trail[1]);
      AbStays(opts, limit, init, before, trail[1]);
      if |trail| == 2 {
        AbMatch(opts, limit, init, before, after, rc, ends, saved);
      } else {
        assert Fruitless(m, AbAlts(), AbHints(true), s, 0 + 1, opts, 2, limit, before, trail[1], trail[2]);
        AbFound(opts, limit, init, before, trail[2]);
      }
    }
  }

  /** Over "xb" the states held after "a" do not get beyond the "x"; from the "b" on they lead to the end of a word. */
  lemma {:induction false} AbHeld(init: seq<State>, b: State, j: nat)
    requires Pending(AbMachine(), AbAlts(), [97], 0, false, init)
    ensures Live(AbMachine(), [120, 98], init, 0, b, j) ==> j == 0
    ensures Live(AbMachine(), [120, 98], init, 1, End(AbMachine()), j) <==> j == 2
  {
    hide Active, New, Branches, AbMachine, Live, Young, AllSane;
    var m, s: seq<Byte> := AbMachine(), [120, 98];
    assert [97] + s == [97, 120, 98];
    AbEnd(0);
    if Live(m, s, init, 0, b, j) {
      LiveBeyond(m, [97], s, Branches(m.code, 0), 0, init, b, j);
      AbLive([97] + s, b, 1 + j);
    }
    AbPartial([97]);
    assert Live(m, [97], init, 1, State(5, 0), 1);
    LiveElsewhere(m, [97], s, init, 1, State(5, 0), 1);
    AbSteps(98);
    assert Step(m, s, State(5, 0), 1, End(m), 2);
    LiveStep(m, s, init, 1, State(5, 0), 1, End(m), 2);
    if Live(m, s, init, 1, End(m), j) {
      LiveForward(m, s, init, 1, End(m), j);
      if j == 1 {
        LiveElsewhere(m, s, [97], init, 1, End(m), 1);
        AbLive([97], End(m), 1);
      }
    }
  }

  lemma {:induction false} AbRoom(init: seq<State>, left: nat, limit: nat)
    requires Pending(AbMachine(), AbAlts(), [97], 0, false, init) && left <= 3 && limit >= 1000
    ensures !TooSmall(AbMachine(), init, left, limit)
  {
    hide AbMachine, Live, Stands, AllMatches, AllSane;
    AbSane();
    assert Young(AbMachine(), init, 1);
    assert left == 0 || left == 1 || left == 2 || left == 3;
  }

  lemma {:induction false} AbNothingFirst(opts: Options, limit: nat, init: seq<State>, before: seq<int>,
                                          after: seq<int>, rc: int, ends: seq<nat>, saved: seq<State>)
    requires opts.partial && !opts.shortest && !opts.notEmpty && limit >= 1000
             && Pending(AbMachine(), AbAlts(), [97], 0, false, init)
    requires Outcome(AbMachine(), AbAlts(), [120, 98], init, 0, opts, 2, limit, before, after, rc, ends, saved)
    ensures rc == NOMATCH
  {
    hide AbMachine, Live, Pending, Stored, TooSmall;
    var m, s: seq<Byte> := AbMachine(), [120, 98];
    AbRoom(init, 2, limit);
    forall b, j: nat | Live(m, s, init, 0, b, j) ensures j == 0 {
      AbHeld(init, b, j);
    }
    AbNoEnd(init);
    NoneIn(ends);
  }

  lemma {:induction false} NoneIn(ends: seq<nat>)
    ensures (forall e: nat :: e !in ends) ==> ends == []
  {
    assert ends != [] ==> ends[0] in ends;
  }

  lemma {:induction false} OneIn(ends: seq<nat>, x: nat)
    requires Ascending(ends) && forall e: nat :: e in ends <==> e == x
    ensures |ends| == 1
  {
    assert x in ends;
    var last := |ends| - 1;
    assert ends[0] in ends && ends[last] in ends;
  }

  lemma {:induction false} AbNoEnd(init: seq<State>)
    requires Pending(AbMachine(), AbAlts(), [97], 0, false, init)
    ensures !Live(AbMachine(), [120, 98], init, 0, End(AbMachine()), 0)
  {
    hide Active, New, Branches, AbMachine, Live, Young, AllSane;
    var m, s: seq<Byte>, one: seq<Byte>, at: nat := AbMachine(), [120, 98], [97], 1;
    AbEnd(0);
    if Live(m, s, init, 0, End(m), 0) {
      LiveElsewhere(m, s, one, init, 0, End(m), at);
      AbLive(one, End(m), at);
    }
  }

  lemma {:induction false} AbStays(opts: Options, limit: nat, init: seq<State>, before: seq<int>, left: seq<State>)
    requires Pending(AbMachine(), AbAlts(), [97], 0, false, init)
    requires Fruitless(AbMachine(), AbAlts(), AbHints(true), [120, 98], 0, opts, 2, limit, before, init, left)
    ensures left == init
  {
    hide AbMachine, Live, Pending, Stored, TooSmall;
    var m, s: seq<Byte> := AbMachine(), [120, 98];
    var p: nat :| LeftAt(m, s, init, 0, left, p);
    if p > 0 {
      ReachesSelf(m, s, left[0], p);
      LiveIntro(m, s, left, p, left[0], left[0], p);
      AbHeld(init, left[0], p);
    }
  }

  lemma {:induction false} AbMatch(opts: Options, limit: nat, init: seq<State>, before: seq<int>, after: seq<int>,
                                   rc: int, ends: seq<nat>, saved: seq<State>)
    requires opts.partial && !opts.shortest && !opts.notEmpty && limit >= 1000
             && Pending(AbMachine(), AbAlts(), [97], 0, false, init)
    requires Outcome(AbMachine(), AbAlts(), [120, 98], init, 1, opts, 2, limit, before, after, rc, ends, saved)
    ensures rc == 1
  {
    hide AbMachine, Live, Pending, Stored, TooSmall;
    var m, s: seq<Byte> := AbMachine(), [120, 98];
    AbRoom(init, 1, limit);
    forall e: nat ensures e in ends <==> e == 2 {
      AbHeld(init, End(m), e);
    }
    OneIn(ends, 2);
  }

  lemma {:induction false} AbFound(opts: Options, limit: nat, init: seq<State>, before: seq<int>, left: seq<State>)
    requires opts.partial && !opts.shortest && !opts.notEmpty && limit >= 1000
             && Pending(AbMachine(), AbAlts(), [97], 0, false, init)
    ensures !Fruitless(AbMachine(), AbAlts(), AbHints(true), [120, 98], 1, opts, 2, limit, before, init, left)
  {
    hide Outcome, AbMachine, Pending;
    if Fruitless(AbMachine(), AbAlts(), AbHints(true), [120, 98], 1, opts, 2, limit, before, init, left) {
      AbMatch(opts, limit, init, before, before, NOMATCH, [], left);
    }
  }

  /** Two whole calls, asking for partial matches: "a" is partial, and "xb" then yields a match. */
  method AbRestarted(offsets: array<int>, ws: Workspace) returns (rc1: int, rc2: int)
    requires ws.Valid() && ws.limit >= 1000 && offsets.Length >= 2
    modifies ws, ws.low, ws.high, ws.low.blocks, ws.high.blocks, offsets
    ensures rc1 == PARTIAL && rc2 == 1
  {
    hide Leftmost, RestartResult, HintsHold, Pending, AbMachine, Tables.Valid;
    AbCode();
    AbHintsHold(true);
    AbMachineIs();
    var code, opts := Pattern(Plain(), AbAlts()), Options(false, false, true, false);
    ghost var cur, ends, trail;
    rc1, cur, ends := DfaExec(code, AsciiTables(), Plain(), AbAlts(), AbHints(true), [97], 0, false, opts, offsets, 2,
                              ws);
    AbFirst(opts, 2, ws.limit, old(offsets[..]), offsets[..], rc1, cur, ends, ws.Saved());
    ghost var held, before := ws.Saved(), offsets[..];
    SaneWhilePending(AbMachine(), AbAlts(), [97], 0, false, held);
    opts := opts.(restart := true);
    rc2, ends, trail := DfaExecRestart(code, AsciiTables(), Plain(), AbAlts(), AbHints(true), [120, 98], 0, false, opts,
                                       offsets, 2, ws);
    AbSecond(opts, ws.limit, held, before, offsets[..], rc2, ends, ws.Saved(), trail);
  }

  /** Two whole calls, of which only the first asks for partial matches: "a" is partial, and "b" is then missed. */
  method AbGivenUp(offsets: array<int>, ws: Workspace) returns (rc1: int, rc2: int)
    requires ws.Valid() && ws.limit >= 1000 && offsets.Length >= 2
    modifies ws, ws.low, ws.high, ws.low.blocks, ws.high.blocks, offsets
    ensures rc1 == PARTIAL && rc2 == NOMATCH
  {
    hide Leftmost, RestartResult, HintsHold, Pending, AbMachine, Tables.Valid, GivesUp;
    AbCode();
    AbHintsHold(true);
    AbMachineIs();
    var code, opts := Pattern(Plain(), AbAlts()), Options(false, false, true, false);
    ghost var cur, ends, trail;
    rc1, cur, ends := DfaExec(code, AsciiTables(), Plain(), AbAlts(), AbHints(true), [97], 0, false, opts, offsets, 2,
                              ws);
    AbFirst(opts, 2, ws.limit, old(offsets[..]), offsets[..], rc1, cur, ends, ws.Saved());
    ghost var held, before := ws.Saved(), offsets[..];
    SaneWhilePending(AbMachine(), AbAlts(), [97], 0, false, held);
    opts := Options(false, false, false, true);
    rc2, ends, trail := DfaExecRestart(code, AsciiTables(), Plain(), AbAlts(), AbHints(true), [98], 0, false, opts,
                                       offsets, 2, ws);
    AbGives(opts);
    GaveUp(AbMachine(), AbAlts(), AbHints(true), false, [98], opts, 2, ws.limit, held, before, offsets[..], rc2, ends,
           ws.Saved(), trail);
  }

  lemma {:induction false} AbGives(opts: Options)
    requires !opts.partial
    ensures GivesUp(AbHints(true), AbMachine().tables, [98], 0, opts)
  {}

  lemma {:induction false} GaveUp(m: Machine, alts: Alts, h: Hints, anchored: bool, s: seq<Byte>, opts: Options,
                                  size: nat, limit: nat, init: seq<State>, before: seq<int>, after: seq<int>, rc: int,
                                  ends: seq<nat>, saved: seq<State>, trail: seq<seq<State>>)
    requires m.tables.Sized() && AltsOk(alts) && GivesUp(h, m.tables, s, 0, opts)
    requires RestartResult(m, alts, h, anchored, s, 0, opts, size, limit, init, before, after, rc, ends, saved, trail)
    ensures rc == NOMATCH && after == before
  {
    hide Outcome, GivesUp;
    assert |trail| > 1 ==> Fruitless(m, alts, h, s, 0 + 0, opts, size, limit, before, trail[0], trail[1]);
  }

  lemma {:induction false} AbMachineIs()
    ensures AbMachine() == PatternMachine(Plain(), AsciiTables(), AbAlts()) && AsciiTables().Sized()
            && AsciiTables().Valid()
    ensures Implemented(AbMachine()) == Reading(false, Plain(), AsciiTables()) && Fits(Plain(), AbAlts())
            && AltsOk(AbAlts())
  {
    AbCode();
  }

  lemma {:induction false} SaneWhilePending(m: Machine, alts: Alts, s: seq<Byte>, start: nat, notEmpty: bool,
                                            saved: seq<State>)
    requires m.tables.Sized() && AltsOk(alts) && Pending(m, alts, s, start, notEmpty, saved)
    ensures AllSane(m, alts, saved)
  {}

  /** The pattern `ab.`. */
  ghost function AnyAlts(): Alts { Last(Cat(Chr(Lit(97), One), Cat(Chr(Lit(98), One), Chr(Type(OP_ANY), One)))) }

  ghost function AnyMachine(): (m: Machine)
    ensures m.tables.Sized() && !m.ims.Nonzero()
  {
    PatternMachine(Plain(), AsciiTables(), AnyAlts())
  }

  lemma {:induction false} AnyCode()
    ensures AnyMachine().code == [80, 0, 8, 21, 97, 21, 98, 11, 66, 0, 8, 0] && AnyMachine().endKet == 8
    ensures Compiled(AnyMachine(), AnyAlts())
  {
    var ims := Plain();
    var first, second, third := Chr(Lit(97), One), Chr(Lit(98), One), Chr(Type(OP_ANY), One);
    assert Code(ims, first) == [21, 97] && Code(ims, second) == [21, 98] && Code(ims, third) == [11];
    assert Code(ims, Cat(second, third)) == [21, 98, 11];
    assert Code(ims, Cat(first, Cat(second, third))) == [21, 97, 21, 98, 11];
    assert AltsCode(ims, AnyAlts(), OP_BRA) == [80, 0, 8, 21, 97, 21, 98, 11];
  }

  lemma {:induction false} AnySteps(c: Byte)
    ensures var m := AnyMachine();
            && Branches(m.code, 0) == [State(3, 0)]
            && Active(m, State(3, 0)) == [] && New(m, State(3, 0), c) == (if c == 97 then [State(5, 0)] else [])
            && Active(m, State(5, 0)) == [] && New(m, State(5, 0), c) == (if c == 98 then [State(7, 0)] else [])
            && Active(m, State(7, 0)) == [] && End(m) == State(8, 0)
  {
    AnyCode();
  }

  lemma {:induction false} AnySane()
    ensures Sane(AnyMachine(), AnyAlts(), State(7, 0)) && |AnyMachine().code| == 12
  {
    AnyCode();
    var ims := Plain();
    var first, second, third := Chr(Lit(97), One), Chr(Lit(98), One), Chr(Type(OP_ANY), One);
    assert Code(ims, first) == [21, 97] && Code(ims, second) == [21, 98];
    assert State(7, 0).offset in Offsets(ims, third, 7);
    assert State(7, 0).offset in Offsets(ims, Cat(second, third), 5);
    assert State(7, 0).offset in Offsets(ims, Cat(first, Cat(second, third)), 3);
  }

  lemma {:induction false} AnyLive(b: State, j: nat)
    requires Live(AnyMachine(), [97, 98], Branches(AnyMachine().code, 0), 0, b, j)
    ensures j <= 2 && b == State(3 + 2 * j, 0)
  {
    hide Active, New, Branches, AnyMachine, Live;
    AnySteps(97);
    AnySteps(98);
    CoversLive(AnyMachine(), [97, 98], Branches(AnyMachine().code, 0), 0, [{State(3, 0)}, {State(5, 0)}, {State(7, 0)}],
               {}, b, j);
  }

  lemma {:induction false} AnyPartial()
    ensures Live(AnyMachine(), [97, 98], Branches(AnyMachine().code, 0), 0, State(7, 0), 2)
  {
    hide Active, New, Branches, AnyMachine, Live;
    var m, s: seq<Byte> := AnyMachine(), [97, 98];
    AnySteps(97);
    AnySteps(98);
    assert Step(m, s, State(3, 0), 0, State(5, 0), 1) && Step(m, s, State(5, 0), 1, State(7, 0), 2);
    ReachesSelf(m, s, State(3, 0), 0);
    ReachesStep(m, s, State(3, 0), 0, State(3, 0), 0, State(5, 0), 1);
    ReachesStep(m, s, State(3, 0), 0, State(5, 0), 1, State(7, 0), 2);
    LiveIntro(m, s, Branches(m.code, 0), 0, State(3, 0), State(7, 0), 2);
  }

  lemma {:induction false} AnyPending()
    ensures Pending(AnyMachine(), AnyAlts(), [97, 98], 0, false, [State(7, 0)])
  {
    hide Active, New, Branches, AnyMachine, Live;
    var m, s: seq<Byte>, saved := AnyMachine(), [97, 98], [State(7, 0)];
    AnySane();
    AnyPartial();
    AnySteps(0);
    forall b ensures Live(m, s, Branches(m.code, 0), 0, b, 2) <==> Live(m, s, saved, 2, b, 2) {
      if Live(m, s, Branches(m.code, 0), 0, b, 2) {
        AnyLive(b, 2);
        ReachesSelf(m, s, State(7, 0), 2);
        LiveIntro(m, s, saved, 2, State(7, 0), State(7, 0), 2);
      }
      if Live(m, s, saved, 2, b, 2) {
        CoversLive(m, s, saved, 2, [{State(7, 0)}], {}, b, 2);
      }
    }
    forall e: nat ensures !Live(m, s, Branches(m.code, 0), 0, End(m), e) {
      if Live(m, s, Branches(m.code, 0), 0, End(m), e) {
        AnyLive(End(m), e);
      }
    }
  }

  lemma {:induction false} AnyHintsHold()
    ensures HintsHold(Hints(-1, false, 98, false), Implemented(AnyMachine()), AnyAlts())
  {
    hide AnyMachine;
    var rd, h := Implemented(AnyMachine()), Hints(-1, false, 98, false);
    forall s, i: nat, j: nat | MatchesAlts(rd, AnyAlts(), s, i, j)
      ensures i + 1 < |s| && IsReq(h, rd.tables, s[i + 1]) {
      var first, second, third := Chr(Lit(97), One), Chr(Lit(98), One), Chr(Type(OP_ANY), One);
      assert Matches(rd, Cat(first, Cat(second, third)), s, i, j);
      var x: nat :| Matches(rd, first, s, i, x) && Matches(rd, Cat(second, third), s, x, j);
      var y: nat :| Matches(rd, second, s, x, y) && Matches(rd, third, s, y, j);
      OneLetter(rd, 97, s, i, x);
      OneLetter(rd, 98, s, x, y);
    }
  }

  lemma {:induction false} AnyRoom()
    ensures !TooSmall(AnyMachine(), [State(7, 0)], 1, 1000)
  {
    hide AnyMachine;
    AnySane();
    assert Young(AnyMachine(), [State(7, 0)], 2);
  }

  lemma {:induction false} AnyWord()
    ensures MatchesAlts(Implemented(AnyMachine()), AnyAlts(), [97, 98, 99], 0, 3)
  {
    var rd, s: seq<Byte> := Implemented(AnyMachine()), [97, 98, 99];
    var first, second, third := Chr(Lit(97), One), Chr(Lit(98), One), Chr(Type(OP_ANY), One);
    assert Matches(rd, third, s, 2, 3);
    assert Matches(rd, second, s, 1, 2);
    assert Matches(rd, Cat(second, third), s, 1, 3);
    assert Matches(rd, first, s, 0, 1);
    assert Matches(rd, Cat(first, Cat(second, third)), s, 0, 3);
  }

  /** After "ab" the pattern `ab.` waits for any character; but a restart over "c" that does not ask for partial matches
      misses the required "b" there, and gives up. */
  lemma {:induction false} AbAnyWrong() returns (c: Case)
    ensures Happens(c, true) && !c.opts.partial && c.h.req >= 0 && !Right(c)
    ensures c.m == AnyMachine() && c.alts == AnyAlts() && c.prefix == [97, 98] && c.s == [99] && c.rc == NOMATCH
  {
    hide Active, New, Branches, AnyMachine, Live, HintsHold, Pending, Answer, Young, AllSane, Tables.Valid, Fits,
         PatternMachine, MatchesAlts, Outcome, TooSmall;
    var m, s: seq<Byte>, saved, h, opts := AnyMachine(), [99], [State(7, 0)], Hints(-1, false, 98, false),
        Options(false, false, false, true);
    AnyCode();
    AnyPending();
    AnyHintsHold();
    AnyWord();
    AnyRoom();
    c := Case(m, AnyAlts(), h, [97, 98], s, 0, false, opts, 0, 1000, saved, [], [], NOMATCH, [], saved, [saved]);
    assert GivesUp(h, m.tables, s, 0, opts);
    assert [97, 98] + s == [97, 98, 99];
    RestartExact(m, c.alts, h, true, c.prefix, s, 0, false, opts, 0, 1000, saved, c.before, c.after, NOMATCH, c.ends,
                 saved, c.trail);
  }
}
