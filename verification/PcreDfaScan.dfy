/** Scanning the active states at one subject position, and the match list. */
module PcreDfaScan {
  import opened Arithmetic
  import opened Basics
  import opened PcreBytecode
  import opened PcreDfaMachine
  import opened PcreDfaSteps
  import opened PcreDfaLanguage
  import opened PcreDfaOffsets
  import opened PcreDfaState
  import opened PcreDfaRun

  datatype Options = Options(notEmpty: bool, shortest: bool, partial: bool, restart: bool)

  // ------------------------------------------------------------ match list

  const NOMATCH := -1
  const PARTIAL := -12
  const WSSIZE := -19

  ghost function Min(a: int, b: int): int { if a < b then a else b }

  /** The return value after `n` matches with room for `size / 2` pairs. Two or more matches
      that fill the vector exactly already count as an overflow. */
  ghost function CountFor(n: nat, size: nat): int {
    if n == 0 then NOMATCH
    else if size < 2 then 0
    else if n == 1 then 1
    else if 2 * n >= size then 0
    else n
  }

  /** The vector holds the latest matches, longest first; the rest is as it was at first. */
  ghost predicate Stored(v: seq<int>, initial: seq<int>, size: nat, start: nat, ends: seq<nat>) {
    && size % 2 == 0 && size <= |v| == |initial|
    && var kept := Min(|ends|, size / 2);
       && (forall t :: 0 <= t < kept ==> v[2 * t] == start && v[2 * t + 1] == ends[|ends| - 1 - t])
       && (forall x :: 2 * kept <= x < |v| ==> v[x] == initial[x])
  }

  /** Shift the recorded matches up and put the new, longer one first. */
  method RecordMatch(offsets: array<int>, size: nat, matchCount: int, start: nat, end: nat, ghost initial: seq<int>,
                     ghost ends: seq<nat>)
    returns (mc: int)
    requires Stored(offsets[..], initial, size, start, ends) && matchCount == CountFor(|ends|, size)
    modifies offsets
    ensures Stored(offsets[..], initial, size, start, ends + [end])
    ensures mc == CountFor(|ends| + 1, size)
  {
    mc := matchCount;
    if mc < 0 {
      mc := if size >= 2 then 1 else 0;
    } else if mc > 0 {
      mc := mc + 1;
      if mc * 2 >= size {
        mc := 0;
      }
    }
    var count := (if mc == 0 then size else mc * 2) - 2;
    if count > 0 {
      forall x | 2 <= x < count + 2 {
        offsets[x] := offsets[x - 2];
      }
    }
    if size >= 2 {
      offsets[0] := start;
      offsets[1] := end;
    }
    StoredPush(old(offsets[..]), offsets[..], initial, size, start, ends, end, count);
  }

  /** The latest end in front, `count` older entries moved up by one pair. */
  lemma {:induction false} StoredPush(was: seq<int>, v: seq<int>, initial: seq<int>, size: nat, start: nat,
                                      ends: seq<nat>, end: nat, count: int)
    requires Stored(was, initial, size, start, ends) && |v| == |was|
    requires count == if CountFor(|ends| + 1, size) == 0 then size - 2 else 2 * |ends|
    requires size >= 2 ==> v[0] == start && v[1] == end
    requires forall x :: 2 <= x < count + 2 ==> v[x] == was[x - 2]
    requires forall x :: 0 <= x < |v| && x >= count + 2 ==> v[x] == was[x]
    ensures Stored(v, initial, size, start, ends + [end])
  {
    var all := ends + [end];
    var kept := Min(|all|, size / 2);
    forall t | 0 <= t < kept
      ensures v[2 * t] == start && v[2 * t + 1] == all[|all| - 1 - t]
    {
      if t > 0 {
        assert v[2 * t] == was[2 * (t - 1)] && v[2 * t + 1] == was[2 * (t - 1) + 1];
      }
    }
  }

  // ------------------------------------------------------------ one position

  ghost predicate CountsUpTo(sts: seq<State>, max: nat) {
    forall st :: st in sts ==> st.count <= max
  }

  /** The first `i` active states have been acted on. */
  ghost predicate Scanned(m: Machine, alts: Alts, s: seq<Byte>, ptr: nat, entry: seq<State>, items: seq<State>, i: nat,
                          newer: seq<State>)
    requires AltsOk(alts) && m.tables.Sized()
  {
    && entry <= items && i <= |items|
    && AllSane(m, alts, items) && AllSane(m, alts, newer)
    && (forall a :: a in items ==> Live(m, s, entry, ptr, a, ptr))
    && (forall x, t :: 0 <= x < i && t in Active(m, items[x]) ==> t in items)
    && (ptr < |s| ==> forall x, t :: 0 <= x < i && t in New(m, items[x], s[ptr]) ==> t in newer)
    && (newer != [] ==> ptr < |s|)
    && (forall t :: t in newer ==> exists x :: 0 <= x < i && t in New(m, items[x], s[ptr]))
  }

  /** Lists grow by at most |code| and 1 for every distinct state acted on. */
  ghost predicate Roomy(m: Machine, entry: seq<State>, items: seq<State>, i: nat, newer: seq<State>)
    requires i <= |items|
  {
    && |items| <= |entry| + |ToSet(items[..i])| * |m.code|
    && |newer| <= |ToSet(items[..i])|
  }

  lemma {:induction false} ScanDuplicate(m: Machine, alts: Alts, s: seq<Byte>, ptr: nat, entry: seq<State>,
                                         items: seq<State>, i: nat, newer: seq<State>)
    requires AltsOk(alts) && m.tables.Sized() && Scanned(m, alts, s, ptr, entry, items, i, newer)
    requires i < |items| && items[i] in items[..i] && Roomy(m, entry, items, i, newer)
    ensures Scanned(m, alts, s, ptr, entry, items, i + 1, newer) && Roomy(m, entry, items, i + 1, newer)
  {
    hide Active, New, Live, Sane;
    assert items[..i + 1] == items[..i] + [items[i]];
    assert ToSet(items[..i + 1]) == ToSet(items[..i]);
    var d :| 0 <= d < i && items[d] == items[i];
    forall t | t in Active(m, items[i]) ensures t in items {
      assert t in Active(m, items[d]);
    }
    if ptr < |s| {
      forall t | t in New(m, items[i], s[ptr]) ensures t in newer {
        assert t in New(m, items[d], s[ptr]);
      }
    }
  }

  lemma {:induction false} ScanAct(m: Machine, alts: Alts, s: seq<Byte>, ptr: nat, entry: seq<State>, items: seq<State>,
                                   i: nat, newer: seq<State>, items': seq<State>, newer': seq<State>)
    requires Compiled(m, alts) && Scanned(m, alts, s, ptr, entry, items, i, newer)
    requires i < |items|
    requires items' == items + Active(m, items[i])
    requires newer' == newer + (if ptr < |s| then New(m, items[i], s[ptr]) else [])
    ensures Scanned(m, alts, s, ptr, entry, items', i + 1, newer')
  {
    hide Active, New, Live, Sane, Fits, PatternMachine, Tables.Valid;
    var st := items[i];
    SaneStep(m, alts, st, if ptr < |s| then s[ptr] else 0);
    assert items' != [] && items'[i] == st;
    forall a | a in items' ensures Live(m, s, entry, ptr, a, ptr) {
      if a !in items {
        assert Step(m, s, st, ptr, a, ptr);
        LiveStep(m, s, entry, ptr, st, ptr, a, ptr);
      }
    }
    forall t | t in newer' ensures exists x :: 0 <= x < i + 1 && t in New(m, items'[x], s[ptr]) {
      if t in newer {
        var x :| 0 <= x < i && t in New(m, items[x], s[ptr]);
        assert t in New(m, items'[x], s[ptr]);
      } else {
        assert t in New(m, items'[i], s[ptr]);
      }
    }
    forall x, t | 0 <= x < i + 1 && t in Active(m, items'[x]) ensures t in items' {
      if x < i {
        assert t in Active(m, items[x]);
      }
    }
    if ptr < |s| {
      forall x, t | 0 <= x < i + 1 && t in New(m, items'[x], s[ptr]) ensures t in newer' {
        if x < i {
          assert t in New(m, items[x], s[ptr]);
        }
      }
    }
  }

  // ------------------------------------------------------------ space

  lemma {:induction false} RowBound(sts: set<State>, o: nat, n: nat)
    requires forall st :: st in sts ==> st.offset == o && st.count < n
    ensures |sts| <= n
  {
    if n > 0 {
      var rest := sts - {State(o, n - 1)};
      RowBound(rest, o, n - 1);
      assert sts <= rest + {State(o, n - 1)};
      SubsetSize(sts, rest + {State(o, n - 1)});
    } else {
      assert sts == {};
    }
  }

  /** There are at most `l * n` states with an offset below `l` and a count below `n`. */
  lemma {:induction false} TableBound(sts: set<State>, l: nat, n: nat)
    requires forall st :: st in sts ==> st.offset < l && st.count < n
    ensures |sts| <= l * n
  {
    if l > 0 {
      var row := set st | st in sts && st.offset == l - 1;
      RowBound(row, l - 1, n);
      TableBound(sts - row, l - 1, n);
      assert sts == (sts - row) + row;
      MulSucc(l, n);
    } else {
      assert sts == {};
    }
  }

  lemma {:induction false} MulSucc(a: nat, b: nat)
    requires a > 0
    ensures a * b == (a - 1) * b + b
  {}

  lemma {:induction false} BranchesSize(code: seq<Byte>, o: nat)
    requires ChainOk(code, o)
    ensures 3 * |Branches(code, o)| <= |code| - o
    decreases |code| - o
  {
    hide Get, Branches;
    NextBranch(code, o);
    var next := o + Get(code, o + 1);
    if code[next] == OP_ALT {
      BranchesSize(code, next);
    }
  }

  lemma {:induction false} ActiveSize(m: Machine, st: State)
    requires Readable(m.code, st.offset) && |m.code| >= 2
    ensures |Active(m, st)| <= |m.code|
  {
    hide Get, Branches, SkipAlts;
    var op := m.code[st.offset];
    if op >= OP_BRA {
      BranchesSize(m.code, st.offset);
    }
  }

  lemma {:induction false} NewSize(m: Machine, st: State, c: Byte)
    requires m.tables.Sized()
    ensures |New(m, st, c)| <= 1
  {
    hide Get, LitTest, TypeTest, ClassTest;
  }

  /** Distinct sane states with bounded counts are few. */
  lemma {:induction false} DistinctSize(m: Machine, alts: Alts, sts: seq<State>, max: nat)
    requires Compiled(m, alts) && AllSane(m, alts, sts) && CountsUpTo(sts, max)
    ensures |ToSet(sts)| <= |m.code| * (max + 1)
  {
    hide Compiled, Sane;
    forall st | st in ToSet(sts) ensures st.offset < |m.code| && st.count < max + 1 {
      SaneStep(m, alts, st, 0);
    }
    TableBound(ToSet(sts), |m.code|, max + 1);
  }

  /** Acting on a state not seen before keeps the lists within their bounds. */
  lemma {:induction false} RoomyAct(m: Machine, alts: Alts, entry: seq<State>, items: seq<State>, i: nat,
                                    newer: seq<State>, act: seq<State>, new1: seq<State>, max: nat)
    requires Compiled(m, alts) && AllSane(m, alts, items) && CountsUpTo(items, max)
    requires i < |items| && items[i] !in items[..i] && Roomy(m, entry, items, i, newer)
    requires |act| <= |m.code| && |new1| <= 1
    ensures Roomy(m, entry, items + act, i + 1, newer + new1)
    ensures |items + act| <= |entry| + |m.code| * (max + 1) * |m.code|
    ensures |newer + new1| <= |m.code| * (max + 1)
  {
    hide Compiled, Sane;
    var before, after := ToSet(items[..i]), ToSet((items + act)[..i + 1]);
    assert (items + act)[..i + 1] == items[..i] + [items[i]];
    assert after == before + {items[i]};
    assert |after| == |before| + 1;
    assert |items + act| <= |entry| + |after| * |m.code| by {
      assert (|before| + 1) * |m.code| == |before| * |m.code| + |m.code|;
    }
    DistinctSize(m, alts, (items + act)[..i + 1], max);
    assert |after| * |m.code| <= |m.code| * (max + 1) * |m.code| by {
      Times(|after|, |m.code| * (max + 1), |m.code|);
    }
  }
}
