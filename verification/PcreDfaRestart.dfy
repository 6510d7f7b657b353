/** Matching in pieces: a run taken up from the states a partial match left behaves like one
    run over both pieces of the subject. */
module PcreDfaRestart {
  import opened Basics
  import opened PcreBytecode
  import opened PcreDfaMachine
  import opened PcreLanguage
  import opened PcreDfaLanguage
  import opened PcreDfaRun

  // ------------------------------------------------------------ paths and pieces

  lemma {:induction false} StepInFirst(m: Machine, s1: seq<Byte>, s2: seq<Byte>, a: State, i: nat, b: State, j: nat)
    requires m.tables.Sized() && j <= |s1|
    ensures Step(m, s1 + s2, a, i, b, j) <==> Step(m, s1, a, i, b, j)
  {
    hide Active, New;
  }

  lemma {:induction false} PathInFirst(m: Machine, s1: seq<Byte>, s2: seq<Byte>, k: nat, a: State, i: nat, b: State,
                                       j: nat)
    requires m.tables.Sized() && j <= |s1|
    ensures Path(m, s1 + s2, k, a, i, b, j) <==> Path(m, s1, k, a, i, b, j)
  {
    hide Step;
    if k > 0 {
      if Path(m, s1 + s2, k, a, i, b, j) {
        var c, h: nat :| Step(m, s1 + s2, a, i, c, h) && Path(m, s1 + s2, k - 1, c, h, b, j);
        PathForward(m, s1 + s2, k - 1, c, h, b, j);
        StepInFirst(m, s1, s2, a, i, c, h);
        PathInFirst(m, s1, s2, k - 1, c, h, b, j);
      }
      if Path(m, s1, k, a, i, b, j) {
        var c, h: nat :| Step(m, s1, a, i, c, h) && Path(m, s1, k - 1, c, h, b, j);
        PathForward(m, s1, k - 1, c, h, b, j);
        StepInFirst(m, s1, s2, a, i, c, h);
        PathInFirst(m, s1, s2, k - 1, c, h, b, j);
      }
    }
  }

  lemma {:induction false} StepInSecond(m: Machine, s1: seq<Byte>, s2: seq<Byte>, a: State, i: nat, b: State, j: nat)
    requires m.tables.Sized()
    ensures Step(m, s1 + s2, a, |s1| + i, b, |s1| + j) <==> Step(m, s2, a, i, b, j)
  {
    hide Active, New;
    assert i < |s2| ==> (s1 + s2)[|s1| + i] == s2[i];
  }

  lemma {:induction false} PathInSecond(m: Machine, s1: seq<Byte>, s2: seq<Byte>, k: nat, a: State, i: nat, b: State,
                                        j: nat)
    requires m.tables.Sized()
    ensures Path(m, s1 + s2, k, a, |s1| + i, b, |s1| + j) <==> Path(m, s2, k, a, i, b, j)
  {
    hide Step;
    if k > 0 {
      if Path(m, s1 + s2, k, a, |s1| + i, b, |s1| + j) {
        var c, h: nat :| Step(m, s1 + s2, a, |s1| + i, c, h) && Path(m, s1 + s2, k - 1, c, h, b, |s1| + j);
        StepForward(m, s1 + s2, a, |s1| + i, c, h);
        var g := h - |s1|;
        StepInSecond(m, s1, s2, a, i, c, g);
        PathInSecond(m, s1, s2, k - 1, c, g, b, j);
      }
      if Path(m, s2, k, a, i, b, j) {
        var c, g: nat :| Step(m, s2, a, i, c, g) && Path(m, s2, k - 1, c, g, b, j);
        StepInSecond(m, s1, s2, a, i, c, g);
        PathInSecond(m, s1, s2, k - 1, c, g, b, j);
        assert Path(m, s1 + s2, k - 1, c, |s1| + g, b, |s1| + j);
      }
    }
  }

  lemma {:induction false} StepForward(m: Machine, s: seq<Byte>, a: State, i: nat, b: State, j: nat)
    requires m.tables.Sized() && Step(m, s, a, i, b, j)
    ensures i <= j <= i + 1
  {
    hide Active, New;
  }

  /** A path that passes position `p` has a state there. */
  lemma {:induction false} PathCut(m: Machine, s: seq<Byte>, k: nat, a: State, i: nat, b: State, j: nat, p: nat)
    returns (c: State)
    requires m.tables.Sized() && Path(m, s, k, a, i, b, j) && i <= p <= j
    ensures Reaches(m, s, a, i, c, p) && Reaches(m, s, c, p, b, j)
  {
    hide Step;
    if i == p {
      c := a;
      ReachesSelf(m, s, a, i);
    } else {
      var d, h: nat :| Step(m, s, a, i, d, h) && Path(m, s, k - 1, d, h, b, j);
      StepForward(m, s, a, i, d, h);
      c := PathCut(m, s, k - 1, d, h, b, j, p);
      var l: nat :| Path(m, s, l, d, h, c, p);
      assert Path(m, s, l + 1, a, i, c, p);
    }
  }

  // ------------------------------------------------------------ live states of the whole

  lemma {:induction false} ReachesInFirst(m: Machine, s1: seq<Byte>, s2: seq<Byte>, a: State, i: nat, b: State, j: nat)
    requires m.tables.Sized() && j <= |s1|
    ensures Reaches(m, s1 + s2, a, i, b, j) <==> Reaches(m, s1, a, i, b, j)
  {
    hide Path;
    if Reaches(m, s1 + s2, a, i, b, j) {
      var k: nat :| Path(m, s1 + s2, k, a, i, b, j);
      PathInFirst(m, s1, s2, k, a, i, b, j);
    }
    if Reaches(m, s1, a, i, b, j) {
      var k: nat :| Path(m, s1, k, a, i, b, j);
      PathInFirst(m, s1, s2, k, a, i, b, j);
    }
  }

  lemma {:induction false} LiveInFirst(m: Machine, s1: seq<Byte>, s2: seq<Byte>, init: seq<State>, start: nat, b: State,
                                       j: nat)
    requires m.tables.Sized() && j <= |s1|
    ensures Live(m, s1 + s2, init, start, b, j) <==> Live(m, s1, init, start, b, j)
  {
    hide Reaches;
    if Live(m, s1 + s2, init, start, b, j) {
      var a :| a in init && Reaches(m, s1 + s2, a, start, b, j);
      ReachesInFirst(m, s1, s2, a, start, b, j);
    }
    if Live(m, s1, init, start, b, j) {
      var a :| a in init && Reaches(m, s1, a, start, b, j);
      ReachesInFirst(m, s1, s2, a, start, b, j);
    }
  }

  lemma {:induction false} ReachesInSecond(m: Machine, s1: seq<Byte>, s2: seq<Byte>, a: State, i: nat, b: State, j: nat)
    requires m.tables.Sized()
    ensures Reaches(m, s1 + s2, a, |s1| + i, b, |s1| + j) <==> Reaches(m, s2, a, i, b, j)
  {
    hide Path;
    if Reaches(m, s1 + s2, a, |s1| + i, b, |s1| + j) {
      var k: nat :| Path(m, s1 + s2, k, a, |s1| + i, b, |s1| + j);
      PathInSecond(m, s1, s2, k, a, i, b, j);
    }
    if Reaches(m, s2, a, i, b, j) {
      var k: nat :| Path(m, s2, k, a, i, b, j);
      PathInSecond(m, s1, s2, k, a, i, b, j);
    }
  }

  /** Beyond the first piece, what is live over both pieces is what is live over the second
      from the saved states. */
  lemma {:induction false} LiveBeyond(m: Machine, s1: seq<Byte>, s2: seq<Byte>, init: seq<State>, start: nat,
                                      saved: seq<State>, b: State, j: nat)
    requires m.tables.Sized() && start <= |s1| && Stands(m, s1, init, start, saved)
    ensures Live(m, s1 + s2, init, start, b, |s1| + j) <==> Live(m, s2, saved, 0, b, j)
  {
    hide Path, Step, Reaches;
    var s, p := s1 + s2, |s1|;
    if Live(m, s, init, start, b, p + j) {
      var a :| a in init && Reaches(m, s, a, start, b, p + j);
      var c := ReachesCut(m, s, a, start, b, p + j, p);
      assert Live(m, s, init, start, c, p);
      LiveInFirst(m, s1, s2, init, start, c, p);
      var d := SavedReaches(m, s1, s2, saved, c);
      ReachesTrans(m, s, d, p, c, p, b, p + j);
      ReachesInSecond(m, s1, s2, d, 0, b, j);
    }
    if Live(m, s2, saved, 0, b, j) {
      var d :| d in saved && Reaches(m, s2, d, 0, b, j);
      ReachesInSecond(m, s1, s2, d, 0, b, j);
      ReachesSelf(m, s1, d, p);
      assert Live(m, s1, saved, p, d, p);
      LiveInFirst(m, s1, s2, init, start, d, p);
      LiveJoin(m, s, init, start, d, p, b, p + j);
    }
  }

  lemma {:induction false} SavedReaches(m: Machine, s1: seq<Byte>, s2: seq<Byte>, saved: seq<State>, c: State)
    returns (d: State)
    requires m.tables.Sized() && Live(m, s1, saved, |s1|, c, |s1|)
    ensures d in saved && Reaches(m, s1 + s2, d, |s1|, c, |s1|)
  {
    hide Path;
    d :| d in saved && Reaches(m, s1, d, |s1|, c, |s1|);
    var k: nat :| Path(m, s1, k, d, |s1|, c, |s1|);
    PathInFirst(m, s1, s2, k, d, |s1|, c, |s1|);
  }

  lemma {:induction false} ReachesCut(m: Machine, s: seq<Byte>, a: State, i: nat, b: State, j: nat, p: nat)
    returns (c: State)
    requires m.tables.Sized() && Reaches(m, s, a, i, b, j) && i <= p <= j
    ensures Reaches(m, s, a, i, c, p) && Reaches(m, s, c, p, b, j)
  {
    hide Path;
    var k: nat :| Path(m, s, k, a, i, b, j);
    c := PathCut(m, s, k, a, i, b, j, p);
  }

  lemma {:induction false} ReachesTrans(m: Machine, s: seq<Byte>, a: State, i: nat, b: State, j: nat, c: State, h: nat)
    requires m.tables.Sized() && Reaches(m, s, a, i, b, j) && Reaches(m, s, b, j, c, h)
    ensures Reaches(m, s, a, i, c, h)
  {
    hide Path;
    var k: nat :| Path(m, s, k, a, i, b, j);
    PathJoin(m, s, k, a, i, b, j, c, h);
  }

  ghost function Shifted(ends: seq<nat>, amount: nat): (r: seq<nat>)
    ensures |r| == |ends|
    ensures forall x :: 0 <= x < |r| ==> r[x] == ends[x] + amount
  {
    seq(|ends|, x requires 0 <= x < |ends| => ends[x] + amount)
  }

  /** After a first piece without a match, the matches over both pieces are those found over
      the second from the saved states, moved up by the length of the first. The second piece
      may itself end in a partial match. */
  lemma {:induction false} MatchesInPieces(m: Machine, s1: seq<Byte>, s2: seq<Byte>, init: seq<State>, start: nat,
                                           notEmpty: bool, saved: seq<State>, notEmpty2: bool, ends: seq<nat>)
    requires m.tables.Sized() && start < |s1| && Stands(m, s1, init, start, saved)
    requires AllMatches(m, s1, init, start, notEmpty, [])
    requires AllMatches(m, s2, saved, 0, notEmpty2, ends)
    ensures AllMatches(m, s1 + s2, init, start, notEmpty, Shifted(ends, |s1|))
  {
    hide Live, Stands;
    var all, p := Shifted(ends, |s1|), |s1|;
    NoneInFirst(m, s1, s2, init, start, notEmpty);
    forall e: nat
      ensures e in all <==> Live(m, s1 + s2, init, start, End(m), e) && (e > start || !notEmpty)
    {
      if e <= p {
        InShifted(ends, p, e);
        if e == p {
          LiveBeyond(m, s1, s2, init, start, saved, End(m), 0);
          assert 0 !in ends;
        }
      } else {
        LiveBeyond(m, s1, s2, init, start, saved, End(m), e - p);
        InShifted(ends, p, e);
        assert e - p in ends <==> Live(m, s2, saved, 0, End(m), e - p);
      }
    }
  }

  lemma {:induction false} InShifted(ends: seq<nat>, p: nat, e: nat)
    ensures e in Shifted(ends, p) <==> e >= p && e - p in ends
  {
    if e >= p && e - p in ends {
      var x :| 0 <= x < |ends| && ends[x] == e - p;
      assert Shifted(ends, p)[x] == e;
    }
  }

  lemma {:induction false} NoneInFirst(m: Machine, s1: seq<Byte>, s2: seq<Byte>, init: seq<State>, start: nat,
                                       notEmpty: bool)
    requires m.tables.Sized() && start < |s1| && AllMatches(m, s1, init, start, notEmpty, [])
    ensures forall e: nat :: e <= |s1| && (e > start || !notEmpty) ==> !Live(m, s1 + s2, init, start, End(m), e)
  {
    hide Live;
    forall e: nat | e <= |s1| && (e > start || !notEmpty)
      ensures !Live(m, s1 + s2, init, start, End(m), e)
    {
      LiveInFirst(m, s1, s2, init, start, End(m), e);
      assert e !in [];
    }
  }

  // ------------------------------------------------------------ states left over

  lemma {:induction false} StayElsewhere(m: Machine, s: seq<Byte>, t: seq<Byte>, k: nat, a: State, i: nat, b: State,
                                         j: nat)
    requires m.tables.Sized() && Path(m, s, k, a, i, b, i)
    ensures Path(m, t, k, a, j, b, j)
  {
    hide Active, New;
    if k > 0 {
      var c, h: nat :| Step(m, s, a, i, c, h) && Path(m, s, k - 1, c, h, b, i);
      PathForward(m, s, k - 1, c, h, b, i);
      StepForward(m, s, a, i, c, h);
      assert Step(m, t, a, j, c, j);
      StayElsewhere(m, s, t, k - 1, c, i, b, j);
    }
  }

  /** What states lead to without a character does not depend on the subject or the position. */
  lemma {:induction false} LiveElsewhere(m: Machine, s: seq<Byte>, t: seq<Byte>, sts: seq<State>, i: nat, b: State,
                                         j: nat)
    requires m.tables.Sized() && Live(m, s, sts, i, b, i)
    ensures Live(m, t, sts, j, b, j)
  {
    hide Path;
    var a :| a in sts && Reaches(m, s, a, i, b, i);
    var k: nat :| Path(m, s, k, a, i, b, i);
    StayElsewhere(m, s, t, k, a, i, b, j);
  }

  /** States that stand for a run over the second piece stand for the run over both. */
  lemma {:induction false} StandsJoin(m: Machine, s1: seq<Byte>, s2: seq<Byte>, init: seq<State>, start: nat,
                                      saved: seq<State>, saved2: seq<State>)
    requires m.tables.Sized() && start <= |s1| && Stands(m, s1, init, start, saved) && Stands(m, s2, saved, 0, saved2)
    ensures Stands(m, s1 + s2, init, start, saved2)
  {
    hide Live;
    var all := s1 + s2;
    forall b ensures Live(m, all, init, start, b, |all|) <==> Live(m, all, saved2, |all|, b, |all|) {
      LiveBeyond(m, s1, s2, init, start, saved, b, |s2|);
      if Live(m, s2, saved2, |s2|, b, |s2|) {
        LiveElsewhere(m, s2, all, saved2, |s2|, b, |all|);
      }
      if Live(m, all, saved2, |all|, b, |all|) {
        LiveElsewhere(m, all, s2, saved2, |all|, b, |s2|);
      }
    }
  }
}
