/** The matching loop: states at one subject position after another, until none is left. */
module PcreDfaExec {
  import opened Arithmetic
  import opened Basics
  import opened PcreBytecode
  import opened PcreDfaMachine
  import opened PcreLanguage
  import opened PcreDfaSteps
  import opened PcreDfaLanguage
  import opened PcreDfaOffsets
  import opened PcreDfaState
  import opened PcreDfaRun
  import opened PcreDfaScan

  datatype Status = Done | Hit | Full

  /** May a match ending at `ptr` be recorded? */
  predicate Allowed(opts: Options, start: nat, ptr: nat) { ptr > start || !opts.notEmpty }

  ghost predicate Lists(active: StateList, newer: StateList)
    reads active, newer
  {
    active.Valid() && newer.Valid() && active != newer && active.blocks != newer.blocks
  }

  /** Has this state already been acted on at this position? */
  method IsDuplicate(active: StateList, i: nat) returns (dup: bool)
    requires active.Valid() && i < active.count
    ensures dup <==> active.Items()[i] in active.Items()[..i]
  {
    dup := false;
    var j := 0;
    while j < i && !dup
      invariant j <= i
      invariant dup <==> active.blocks[i] in active.blocks[..j]
    {
      dup := active.blocks[j] == active.blocks[i];
      j := j + 1;
    }
    assert active.Items()[..i] == active.blocks[..i];
  }

  /** Where a scan stands: the lists' contents satisfy the scanning invariant, and the
      match list has `ptr` first exactly if the end state has been met. */
  ghost predicate AtState(m: Machine, alts: Alts, s: seq<Byte>, start: nat, ptr: nat, opts: Options, entry: seq<State>,
                          active: StateList, newer: StateList, i: nat, max: nat, ends: seq<nat>, ends': seq<nat>)
    reads active, newer, active.blocks, newer.blocks
  {
    && Lists(active, newer) && i <= active.count
    && Progress(m, alts, s, ptr, entry, active.Items(), i, newer.Items(), max)
    && ends' == (if End(m) in active.Items()[..i] && Allowed(opts, start, ptr) then ends + [ptr] else ends)
    && (opts.shortest ==> ends' == ends)
  }

  /** Act on the `i`-th active state: skip it if it repeats an earlier one, record a match if it
      is the end state, and otherwise grow the lists. */
  method ScanOne(m: Machine, ghost alts: Alts, s: seq<Byte>, start: nat, ptr: nat, c: int, opts: Options,
                 active: StateList, newer: StateList, i: nat, offsets: array<int>, size: nat, matchCount: int,
                 ghost initial: seq<int>, ghost entry: seq<State>, ghost max: nat, ghost ends: seq<nat>,
                 ghost ends0: seq<nat>)
    returns (status: Status, mc: int, ghost ends': seq<nat>)
    requires m.tables.Sized() && start <= ptr <= |s| && c == (if ptr < |s| then s[ptr] else -1)
    requires AtState(m, alts, s, start, ptr, opts, entry, active, newer, i, max, ends, ends0) && i < active.count
    requires Stored(offsets[..], initial, size, start, ends0) && matchCount == CountFor(|ends0|, size)
    modifies active, active.blocks, newer, newer.blocks, offsets
    ensures Lists(active, newer)
    ensures Stored(offsets[..], initial, size, start, ends') && mc == CountFor(|ends'|, size)
    ensures status == Done ==> AtState(m, alts, s, start, ptr, opts, entry, active, newer, i + 1, max, ends, ends')
    ensures status == Hit ==> opts.shortest && Allowed(opts, start, ptr) && ends' == ends + [ptr] &&
                              Live(m, s, entry, ptr, End(m), ptr)
    ensures status == Full ==>
              active.blocks.Length < |entry| + |m.code| * (max + 1) * |m.code| ||
              newer.blocks.Length < |m.code| * (max + 1)
  {
    hide Stored, Active, New, Live, Readable, Progress, CountFor;
    ghost var items, news := active.Items(), newer.Items();
    var st := active.blocks[i];
    mc, ends', status := matchCount, ends0, Done;
    assert items[..i + 1] == items[..i] + [st];
    var dup := IsDuplicate(active, i);
    NextState(m, alts, s, ptr, entry, items, i, news, max);
    if dup {
      return;
    }
    if st.offset == m.endKet {
      if Allowed(opts, start, ptr) {
        mc := RecordMatch(offsets, size, mc, start, ptr, initial, ends0);
        ends' := ends0 + [ptr];
        if opts.shortest {
          status := Hit;
        }
      }
      assert active.Items() == items && newer.Items() == news;
    } else {
      var ok := Act(m, st, c, active, newer);
      if !ok {
        status := Full;
        return;
      }
      assert active.Items()[..i + 1] == items[..i + 1];
    }
  }

  /** Act on every distinct active state at `ptr`, including those added on the way. */
  method ScanPosition(m: Machine, ghost alts: Alts, s: seq<Byte>, start: nat, ptr: nat, opts: Options,
                      active: StateList, newer: StateList, offsets: array<int>, size: nat, matchCount: int,
                      ghost initial: seq<int>, ghost ends: seq<nat>, ghost max: nat)
    returns (status: Status, mc: int, ghost ends': seq<nat>)
    requires Compiled(m, alts) && start <= ptr <= |s|
    requires Lists(active, newer) && newer.count == 0
    requires AllSane(m, alts, active.Items()) && CountsUpTo(active.Items(), max)
    requires Stored(offsets[..], initial, size, start, ends) && matchCount == CountFor(|ends|, size)
    modifies active, active.blocks, newer, newer.blocks, offsets
    ensures Lists(active, newer)
    ensures Stored(offsets[..], initial, size, start, ends') && mc == CountFor(|ends'|, size)
    ensures status == Done ==>
              && Scanned(m, alts, s, ptr, old(active.Items()), active.Items(), active.count, newer.Items())
              && ends' == (if End(m) in active.Items() && Allowed(opts, start, ptr) then ends + [ptr] else ends)
              && CountsUpTo(newer.Items(), max + 1)
              && newer.count <= |m.code| * (max + 1)
    ensures status == Hit ==> opts.shortest && Allowed(opts, start, ptr) && ends' == ends + [ptr] &&
                              Live(m, s, old(active.Items()), ptr, End(m), ptr)
    ensures opts.shortest && status == Done ==> ends' == ends
    ensures status == Full ==>
              active.blocks.Length < old(active.count) + |m.code| * (max + 1) * |m.code| ||
              newer.blocks.Length < |m.code| * (max + 1)
  {
    hide Compiled, Stored, Active, New, Live, Readable, Scanned, Progress, AllSane, CountsUpTo, CountFor;
    ghost var entry := active.Items();
    var c: int := if ptr < |s| then s[ptr] else -1;
    mc, ends', status := matchCount, ends, Done;
    StartProgress(m, alts, s, ptr, entry, max);
    assert entry[..0] == [] && newer.Items() == [];
    var i := 0;
    while i < active.count
      invariant AtState(m, alts, s, start, ptr, opts, entry, active, newer, i, max, ends, ends')
      invariant Stored(offsets[..], initial, size, start, ends') && mc == CountFor(|ends'|, size)
      invariant status == Done
      decreases active.blocks.Length - i
    {
      status, mc, ends' := ScanOne(m, alts, s, start, ptr, c, opts, active, newer, i, offsets, size, mc, initial, entry,
                                   max, ends, ends');
      if status != Done {
        return;
      }
      i := i + 1;
    }
    assert active.Items()[..i] == active.Items();
    ProgressDone(m, alts, s, ptr, entry, active.Items(), newer.Items(), max);
  }

  /** The scanning invariant, in values. */
  ghost predicate Progress(m: Machine, alts: Alts, s: seq<Byte>, ptr: nat, entry: seq<State>, items: seq<State>, i: nat,
                           newer: seq<State>, max: nat)
  {
    && Compiled(m, alts)
    && Scanned(m, alts, s, ptr, entry, items, i, newer)
    && Roomy(m, entry, items, i, newer)
    && CountsUpTo(items, max) && CountsUpTo(newer, max + 1)
    && |newer| <= |m.code| * (max + 1)
  }

  lemma {:induction false} ProgressDone(m: Machine, alts: Alts, s: seq<Byte>, ptr: nat, entry: seq<State>,
                                        items: seq<State>, newer: seq<State>, max: nat)
    requires m.tables.Sized() && AltsOk(alts)
    requires Progress(m, alts, s, ptr, entry, items, |items|, newer, max)
    ensures Scanned(m, alts, s, ptr, entry, items, |items|, newer)
    ensures CountsUpTo(newer, max + 1) && |newer| <= |m.code| * (max + 1)
  {
    hide Scanned, Compiled;
  }

  lemma {:induction false} StartProgress(m: Machine, alts: Alts, s: seq<Byte>, ptr: nat, entry: seq<State>, max: nat)
    requires Compiled(m, alts) && AllSane(m, alts, entry) && CountsUpTo(entry, max)
    ensures m.tables.Sized() && AltsOk(alts)
    ensures Progress(m, alts, s, ptr, entry, entry, 0, [], max)
  {
    hide Scanned, Roomy;
    CompiledSized(m, alts);
    ScanStart(m, alts, s, ptr, entry);
  }

  /** The next active state: its opcode can be read, and whichever way the matcher goes the
      invariant is kept. */
  lemma {:induction false} NextState(m: Machine, alts: Alts, s: seq<Byte>, ptr: nat, entry: seq<State>,
                                     items: seq<State>, i: nat, newer: seq<State>, max: nat)
    requires m.tables.Sized() && Progress(m, alts, s, ptr, entry, items, i, newer, max) && i < |items|
    ensures Readable(m.code, items[i].offset)
    ensures items[i].offset == m.endKet ==> items[i] == End(m)
    ensures Live(m, s, entry, ptr, items[i], ptr)
    ensures items[i] in items[..i] || items[i].offset == m.endKet ==>
              Progress(m, alts, s, ptr, entry, items, i + 1, newer, max)
    ensures items[i] !in items[..i] && items[i].offset != m.endKet ==>
              var items' := items + Active(m, items[i]);
              var newer' := newer + (if ptr < |s| then New(m, items[i], s[ptr]) else []);
              && Progress(m, alts, s, ptr, entry, items', i + 1, newer', max)
              && |items'| <= |entry| + |m.code| * (max + 1) * |m.code|
              && |newer'| <= |m.code| * (max + 1)
  {
    hide Compiled, Scanned, Roomy, Active, New, Live, Sane, Readable, CountsUpTo;
    CompiledSized(m, alts);
    ScannedFacts(m, alts, s, ptr, entry, items, i, newer);
    SaneStep(m, alts, items[i], if ptr < |s| then s[ptr] else 0);
    if items[i] in items[..i] {
      ScanDuplicate(m, alts, s, ptr, entry, items, i, newer);
    } else if items[i].offset == m.endKet {
      ScanEnd(m, alts, s, ptr, entry, items, i, newer, max);
    } else {
      ActGrowth(m, alts, s, ptr, entry, items, i, newer, max);
    }
  }

  lemma {:induction false} ScannedFacts(m: Machine, alts: Alts, s: seq<Byte>, ptr: nat, entry: seq<State>,
                                        items: seq<State>, i: nat, newer: seq<State>)
    requires m.tables.Sized() && AltsOk(alts) && Scanned(m, alts, s, ptr, entry, items, i, newer)
    ensures AllSane(m, alts, items) && (forall a :: a in items ==> Sane(m, alts, a) && Live(m, s, entry, ptr, a, ptr))
  {
    hide Active, New, Sane, Live;
  }

  lemma {:induction false} ScanStart(m: Machine, alts: Alts, s: seq<Byte>, ptr: nat, entry: seq<State>)
    requires Compiled(m, alts) && AllSane(m, alts, entry)
    ensures Scanned(m, alts, s, ptr, entry, entry, 0, []) && Roomy(m, entry, entry, 0, [])
  {
    hide Compiled, Active, New, Sane, Reaches;
    CompiledSized(m, alts);
    forall a | a in entry ensures Live(m, s, entry, ptr, a, ptr) {
      ReachesSelf(m, s, a, ptr);
    }
    assert ToSet(entry[..0]) == {};
  }

  lemma {:induction false} CompiledSized(m: Machine, alts: Alts)
    requires Compiled(m, alts)
    ensures m.tables.Sized() && AltsOk(alts) && |m.code| >= 2
  {}

  /** The end state adds nothing. */
  lemma {:induction false} ScanEnd(m: Machine, alts: Alts, s: seq<Byte>, ptr: nat, entry: seq<State>, items: seq<State>,
                                   i: nat, newer: seq<State>, max: nat)
    requires Compiled(m, alts) && Scanned(m, alts, s, ptr, entry, items, i, newer)
    requires i < |items| && items[i].offset == m.endKet && items[i] !in items[..i]
    requires Roomy(m, entry, items, i, newer) && CountsUpTo(items, max)
    ensures Scanned(m, alts, s, ptr, entry, items, i + 1, newer) && Roomy(m, entry, items, i + 1, newer)
    ensures items[i] == End(m)
  {
    hide Fits, PatternMachine, Tables.Valid, Active, New, Sane, Live, Roomy;
    SaneStep(m, alts, items[i], if ptr < |s| then s[ptr] else 0);
    assert items + [] == items && newer + [] == newer;
    ScanAct(m, alts, s, ptr, entry, items, i, newer, items, newer);
    RoomyAct(m, alts, entry, items, i, newer, [], [], max);
  }

  /** What acting on a fresh state adds, and that it keeps the lists within bounds. */
  lemma {:induction false} ActGrowth(m: Machine, alts: Alts, s: seq<Byte>, ptr: nat, entry: seq<State>,
                                     items: seq<State>, i: nat, newer: seq<State>, max: nat)
    requires Compiled(m, alts) && Scanned(m, alts, s, ptr, entry, items, i, newer)
    requires i < |items| && items[i] !in items[..i]
    requires Roomy(m, entry, items, i, newer) && CountsUpTo(items, max) && CountsUpTo(newer, max + 1)
    ensures m.tables.Sized()
    ensures var items' := items + Active(m, items[i]);
            var newer' := newer + (if ptr < |s| then New(m, items[i], s[ptr]) else []);
            && Scanned(m, alts, s, ptr, entry, items', i + 1, newer') && Roomy(m, entry, items', i + 1, newer')
            && AllSane(m, alts, items') && CountsUpTo(items', max) && CountsUpTo(newer', max + 1)
            && |items'| <= |entry| + |m.code| * (max + 1) * |m.code|
            && |newer'| <= |m.code| * (max + 1)
  {
    hide Fits, PatternMachine, Tables.Valid, Active, New, Sane, Live, Roomy, Readable;
    var st := items[i];
    var c := if ptr < |s| then s[ptr] else 0;
    SaneStep(m, alts, st, c);
    CompiledSized(m, alts);
    ActiveSize(m, st);
    NewSize(m, st, c);
    var new1 := if ptr < |s| then New(m, st, s[ptr]) else [];
    ScanAct(m, alts, s, ptr, entry, items, i, newer, items + Active(m, st), newer + new1);
    RoomyAct(m, alts, entry, items, i, newer, Active(m, st), new1, max);
  }

  // ------------------------------------------------------------ whole runs

  /** Where a run stands before the states of `ptr` are scanned: `hist` holds the sets of the
      earlier positions, `entry` the states brought forward to `ptr`. */
  ghost predicate RunAt(m: Machine, alts: Alts, s: seq<Byte>, init: seq<State>, start: nat, notEmpty: bool, ptr: nat,
                        hist: seq<set<State>>, entry: seq<State>, ends: seq<nat>)
  {
    && Compiled(m, alts) && start <= ptr <= |s| && |hist| == ptr - start
    && Closed(m, s, start, hist, ToSet(entry))
    && (if ptr == start then entry == init else entry != [] && ToSet(init) <= hist[0])
    && (forall b :: b in entry ==> Live(m, s, init, start, b, ptr))
    && (forall q, b :: 0 <= q < |hist| && b in hist[q] ==> Live(m, s, init, start, b, start + q))
    && AllSane(m, alts, entry) && CountsUpTo(entry, MaxCount(init) + (ptr - start))
    && Ascending(ends)
    && (forall e: nat :: e in ends <==>
          start <= e < ptr && End(m) in hist[e - start] && (e > start || !notEmpty))
  }

  lemma {:induction false} RunStart(m: Machine, alts: Alts, s: seq<Byte>, init: seq<State>, start: nat, notEmpty: bool)
    requires Compiled(m, alts) && AllSane(m, alts, init) && start <= |s|
    ensures RunAt(m, alts, s, init, start, notEmpty, start, [], init, [])
  {
    hide Fits, PatternMachine, Tables.Valid, Active, New, Sane, Reaches;
    forall b | b in init ensures Live(m, s, init, start, b, start) {
      ReachesSelf(m, s, b, start);
    }
  }

  /** The set of all states scanned at `ptr` extends the history. */
  lemma {:induction false} RunScanned(m: Machine, alts: Alts, s: seq<Byte>, init: seq<State>, start: nat,
                                      notEmpty: bool, ptr: nat, hist: seq<set<State>>, entry: seq<State>,
                                      ends: seq<nat>, items: seq<State>, newer: seq<State>)
    requires RunAt(m, alts, s, init, start, notEmpty, ptr, hist, entry, ends)
    requires Scanned(m, alts, s, ptr, entry, items, |items|, newer)
    ensures Closed(m, s, start, hist + [ToSet(items)], ToSet(newer))
    ensures ToSet(init) <= (hist + [ToSet(items)])[0]
    ensures forall b :: b in items ==> Live(m, s, init, start, b, ptr)
    ensures forall b :: b in newer ==> ptr < |s| && Live(m, s, init, start, b, ptr + 1)
  {
    hide Fits, PatternMachine, Tables.Valid, Active, New, Sane, Live;
    var hist' := hist + [ToSet(items)];
    forall q | 0 <= q < |hist'| ensures ActiveClosed(m, hist'[q]) {
      if q < |hist| {
        assert ActiveClosed(m, hist[q]);
      } else {
        forall a, t | a in hist'[q] && t in Active(m, a) ensures t in hist'[q] {
          var x :| 0 <= x < |items| && items[x] == a;
        }
      }
    }
    forall q | 0 <= q < |hist'| && start + q < |s|
      ensures NewInto(m, hist'[q], s[start + q], After(hist', q, ToSet(newer)))
    {
      if q < |hist| {
        assert NewInto(m, hist[q], s[start + q], After(hist, q, ToSet(entry)));
        assert After(hist, q, ToSet(entry)) <= After(hist', q, ToSet(newer));
      } else {
        forall a, t | a in hist'[q] && t in New(m, a, s[start + q]) ensures t in ToSet(newer) {
          var x :| 0 <= x < |items| && items[x] == a;
        }
      }
    }
    forall b | b in items ensures Live(m, s, init, start, b, ptr) {
      LiveThrough(m, s, init, start, entry, ptr, b, ptr);
    }
    forall b | b in newer ensures ptr < |s| && Live(m, s, init, start, b, ptr + 1) {
      var x :| 0 <= x < |items| && b in New(m, items[x], s[ptr]);
      assert Step(m, s, items[x], ptr, b, ptr + 1);
      LiveStep(m, s, init, start, items[x], ptr, b, ptr + 1);
    }
  }

  lemma {:induction false} LiveThrough(m: Machine, s: seq<Byte>, init: seq<State>, start: nat, entry: seq<State>,
                                       ptr: nat, b: State, j: nat)
    requires m.tables.Sized() && Live(m, s, entry, ptr, b, j)
    requires forall a :: a in entry ==> Live(m, s, init, start, a, ptr)
    ensures Live(m, s, init, start, b, j)
  {
    hide Reaches;
    var a :| a in entry && Reaches(m, s, a, ptr, b, j);
    LiveJoin(m, s, init, start, a, ptr, b, j);
  }

  lemma {:induction false} RunNext(m: Machine, alts: Alts, s: seq<Byte>, init: seq<State>, start: nat, notEmpty: bool,
                                   ptr: nat, hist: seq<set<State>>, entry: seq<State>, ends: seq<nat>,
                                   items: seq<State>, newer: seq<State>, ends': seq<nat>)
    requires RunAt(m, alts, s, init, start, notEmpty, ptr, hist, entry, ends)
    requires Scanned(m, alts, s, ptr, entry, items, |items|, newer) && newer != []
    requires ends' == if End(m) in items && (ptr > start || !notEmpty) then ends + [ptr] else ends
    requires CountsUpTo(newer, MaxCount(init) + (ptr - start) + 1)
    ensures ptr < |s|
    ensures RunAt(m, alts, s, init, start, notEmpty, ptr + 1, hist + [ToSet(items)], newer, ends')
  {
    hide Compiled, Active, New, Sane, Live, Closed, Scanned;
    CompiledSized(m, alts);
    ScannedSane(m, alts, s, ptr, entry, items, newer);
    RunScanned(m, alts, s, init, start, notEmpty, ptr, hist, entry, ends, items, newer);
    assert newer[0] in newer;
    EndsNext(m, start, notEmpty, ptr, hist, ends, items, ends');
  }

  lemma {:induction false} ScannedSane(m: Machine, alts: Alts, s: seq<Byte>, ptr: nat, entry: seq<State>,
                                       items: seq<State>, newer: seq<State>)
    requires AltsOk(alts) && m.tables.Sized() && Scanned(m, alts, s, ptr, entry, items, |items|, newer)
    ensures AllSane(m, alts, newer)
  {
    hide Active, New, Sane, Live;
  }

  lemma {:induction false} EndsNext(m: Machine, start: nat, notEmpty: bool, ptr: nat, hist: seq<set<State>>,
                                    ends: seq<nat>, items: seq<State>, ends': seq<nat>)
    requires start <= ptr && |hist| == ptr - start && Ascending(ends)
    requires forall e: nat :: e in ends <==> start <= e < ptr && End(m) in hist[e - start] && (e > start || !notEmpty)
    requires ends' == if End(m) in items && (ptr > start || !notEmpty) then ends + [ptr] else ends
    ensures Ascending(ends')
    ensures var hist' := hist + [ToSet(items)];
            forall e: nat :: e in ends' <==>
              start <= e < ptr + 1 && End(m) in hist'[e - start] && (e > start || !notEmpty)
  {
    forall x, y | 0 <= x < y < |ends'| ensures ends'[x] < ends'[y] {
      assert ends'[x] in ends;
    }
  }

  /** When no state is brought forward, the recorded ends are all there are. */
  lemma {:induction false} RunLast(m: Machine, alts: Alts, s: seq<Byte>, init: seq<State>, start: nat, notEmpty: bool,
                                   ptr: nat, hist: seq<set<State>>, entry: seq<State>, ends: seq<nat>,
                                   items: seq<State>, ends': seq<nat>)
    requires RunAt(m, alts, s, init, start, notEmpty, ptr, hist, entry, ends)
    requires Scanned(m, alts, s, ptr, entry, items, |items|, [])
    requires ends' == if End(m) in items && (ptr > start || !notEmpty) then ends + [ptr] else ends
    ensures AllMatches(m, s, init, start, notEmpty, ends')
    ensures forall b, j: nat :: Live(m, s, init, start, b, j) ==> j <= ptr
    ensures forall b :: Live(m, s, init, start, b, ptr) <==> Live(m, s, entry, ptr, b, ptr)
  {
    hide Fits, PatternMachine, Tables.Valid, Active, New, Sane, Live, Closed;
    RunScanned(m, alts, s, init, start, notEmpty, ptr, hist, entry, ends, items, []);
    EndsNext(m, start, notEmpty, ptr, hist, ends, items, ends');
    var hist' := hist + [ToSet(items)];
    assert ToSet([]) == {};
    forall b, j: nat | Live(m, s, init, start, b, j)
      ensures start <= j <= ptr && b in hist'[j - start]
    {
      CoversLive(m, s, init, start, hist', {}, b, j);
    }
    forall b | Live(m, s, entry, ptr, b, ptr) ensures Live(m, s, init, start, b, ptr) {
      LiveThrough(m, s, init, start, entry, ptr, b, ptr);
    }
    forall e: nat | e in ends' ensures Live(m, s, init, start, End(m), e) {
      if e < ptr {
        assert End(m) in hist[e - start];
        assert start + (e - start) == e;
      }
    }
  }

  /** The workspace: two state vectors, which of them is current, and how many of its states
      were brought forward to the position last looked at (`workspace[0]` and `workspace[1]`). */
  class Workspace {
    const low: StateList
    const high: StateList
    var which: nat
    var saved: nat

    ghost const limit: nat := low.blocks.Length

    /** `wscount` ints, two of them for the header, the rest split into two vectors of
        four-int blocks; the caller must supply at least 20. */
    constructor (wscount: nat)
      requires wscount >= 20
      ensures Valid() && limit == (wscount - 2) / 8 && saved == 0
      ensures fresh(this) && fresh(Repr())
    {
      var avail := wscount - 2;
      avail := (avail - avail % 8) / 8;
      low := new StateList(avail);
      high := new StateList(avail);
      which, saved := 0, 0;
    }

    ghost predicate Valid()
      reads this, low, high
    {
      && Lists(low, high)
      && low.blocks.Length == high.blocks.Length
      && saved <= low.blocks.Length
    }

    ghost function Repr(): set<object> { {low, low.blocks, high, high.blocks} }

    /** The states of the current vector, and of the other one. */
    ghost function Current(): seq<State>
      requires Valid()
      reads this, low, high, low.blocks, high.blocks
    {
      (if which != 0 then high else low).Items()
    }

    ghost function Other(): seq<State>
      requires Valid()
      reads this, low, high, low.blocks, high.blocks
    {
      (if which != 0 then low else high).Items()
    }

    /** The states a restart takes up, in whichever vector they were left. */
    ghost function Saved(): seq<State>
      requires Valid()
      reads this, low, high, low.blocks, high.blocks
    {
      (if which != 0 then high else low).blocks[..saved]
    }
  }

  /** Room that is always enough: every offset with every count, and what acting on each adds. */
  ghost function SpaceBound(codeSize: nat, subjectLeft: nat): nat {
    codeSize * (subjectLeft + 1) * (codeSize + 1)
  }

  ghost function InitialStates(m: Machine, opts: Options, ws: Workspace): seq<State>
    requires ws.Valid()
    reads ws, ws.low, ws.high, ws.low.blocks, ws.high.blocks
  {
    if opts.restart then ws.Saved() else Branches(m.code, 0)
  }

  /** What a run that is not cut short returns and leaves behind. */
  ghost predicate FullOutcome(m: Machine, s: seq<Byte>, init: seq<State>, start: nat, opts: Options, size: nat,
                              before: seq<int>, after: seq<int>, rc: int, ends: seq<nat>)
    requires m.tables.Sized()
  {
    && AllMatches(m, s, init, start, opts.notEmpty, ends)
    && if opts.partial && ends == [] && |s| > start && (exists b :: Live(m, s, init, start, b, |s|)) then
         && rc == PARTIAL
         && size <= |before|
         && after == (if size >= 2 then before[0 := start][1 := |s|] else before)
       else
         rc == CountFor(|ends|, size) && Stored(after, before, size, start, ends)
  }

  /** Outcome under the option to stop at the first, shortest, match. */
  ghost predicate ShortOutcome(m: Machine, s: seq<Byte>, init: seq<State>, start: nat, opts: Options, size: nat,
                               before: seq<int>, after: seq<int>, rc: int, ends: seq<nat>)
    requires m.tables.Sized()
  {
    && |ends| == 1 && rc == CountFor(1, size) && Stored(after, before, size, start, ends)
    && Live(m, s, init, start, End(m), ends[0]) && Allowed(opts, start, ends[0])
    && forall e: nat :: Live(m, s, init, start, End(m), e) && Allowed(opts, start, e) ==> ends[0] <= e
  }

  /** Set up the states to begin with: those of every branch, or those a partial match left. */
  method Begin(m: Machine, ghost alts: Alts, opts: Options, ws: Workspace) returns (ok: bool)
    requires Compiled(m, alts) && ws.Valid()
    requires opts.restart ==> AllSane(m, alts, ws.Saved())
    modifies ws, ws.low, ws.high, ws.low.blocks, ws.high.blocks
    ensures ws.Valid() && ws.which == 0
    ensures ok ==> ws.Other() == old(InitialStates(m, opts, ws))
    ensures ok ==> AllSane(m, alts, ws.Other())
    ensures !ok ==> !opts.restart && ws.limit < |m.code|
  {
    hide Compiled, Branches, Sane, Get;
    BranchesSane(m, alts);
    BranchesSize(m.code, 0);
    ok := true;
    if opts.restart {
      if ws.which == 0 {
        forall x | 0 <= x < ws.saved {
          ws.high.blocks[x] := ws.low.blocks[x];
        }
      }
      ws.high.count := ws.saved;
      assert ws.high.Items() == old(ws.Saved());
    } else {
      ws.high.count := 0;
      assert ws.high.Items() == [];
      ok := AddBranches(m.code, 0, ws.high);
      if ok {
        MaxCountZero(Branches(m.code, 0));
      }
    }
    ws.which := 0;
  }

  lemma {:induction false} MaxCountZero(sts: seq<State>)
    requires forall st :: st in sts ==> st.count == 0
    ensures MaxCount(sts) == 0
  {
    if sts != [] {
      MaxCountZero(sts[1..]);
    }
  }

  lemma {:induction false} SpaceEnough(l: nat, p: nat, n: nat, entry: nat, limit: nat)
    requires p <= n && entry <= l * (p + 1)
    requires limit < entry + l * (p + 1) * l || limit < l * (p + 1)
    ensures limit < SpaceBound(l, n)
  {
    var d, e := l * (p + 1), l * (n + 1);
    Times(p + 1, n + 1, l);
    Times(d, e, l + 1);
    assert d * (l + 1) == d + d * l;
  }

  /** States such as a run holds that has passed at most `age` characters. */
  ghost predicate Young(m: Machine, sts: seq<State>, age: nat) {
    CountsUpTo(sts, age) && |sts| <= |m.code| * (age + 1)
  }

  /** The states a run is left with are those it brought to the last position it reached; if that is the first, they are
      the ones it was given. */
  ghost predicate LeftOver(m: Machine, s: seq<Byte>, init: seq<State>, start: nat, saved: seq<State>)
    requires m.tables.Sized()
  {
    exists p: nat :: LeftAt(m, s, init, start, saved, p)
  }

  ghost predicate LeftAt(m: Machine, s: seq<Byte>, init: seq<State>, start: nat, saved: seq<State>, p: nat)
    requires m.tables.Sized()
  {
    && start <= p <= |s|
    && (forall b, j: nat :: Live(m, s, init, start, b, j) ==> j <= p)
    && (forall b :: Live(m, s, init, start, b, p) <==> Live(m, s, saved, p, b, p))
    && if p == start then saved == init else saved != []
  }

  /** Everything a call promises about its results: it gave up for want of space, or it
      recorded all matches, or it stopped at the first. A partial match leaves states from
      which exactly the live ones can be had again, and so does a run without a match where it
      got stuck. */
  ghost predicate Outcome(m: Machine, alts: Alts, s: seq<Byte>, init: seq<State>, start: nat, opts: Options, size: nat,
                          limit: nat, before: seq<int>, after: seq<int>, rc: int, ends: seq<nat>, saved: seq<State>)
    requires AltsOk(alts) && m.tables.Sized() && start <= |s|
  {
    && (|| (rc == WSSIZE && TooSmall(m, init, |s| - start, limit))
        || FullOutcome(m, s, init, start, opts, size, before, after, rc, ends)
        || (opts.shortest && ShortOutcome(m, s, init, start, opts, size, before, after, rc, ends)))
    && (rc == PARTIAL || rc == NOMATCH ==> AllSane(m, alts, saved) && Ages(m, init, saved, |s| - start))
    && (rc == PARTIAL ==> Stands(m, s, init, start, saved))
    && (rc == NOMATCH ==> LeftOver(m, s, init, start, saved))
  }

  /** The space is less than what is always enough, whatever the age of the states to begin with. */
  ghost predicate TooSmall(m: Machine, init: seq<State>, left: nat, limit: nat) {
    forall age: nat :: Young(m, init, age) ==> limit < SpaceBound(|m.code|, age + left)
  }

  /** States become older by at most `n` characters. */
  ghost predicate Ages(m: Machine, init: seq<State>, sts: seq<State>, n: nat) {
    forall age: nat :: Young(m, init, age) ==> Young(m, sts, age + n)
  }

  /** Between two positions: the vector to be scanned next holds the states brought forward. */
  ghost predicate Between(m: Machine, alts: Alts, s: seq<Byte>, init: seq<State>, start: nat, opts: Options, ptr: nat,
                          hist: seq<set<State>>, ends: seq<nat>, ws: Workspace, offsets: array<int>, size: nat,
                          before: seq<int>, mc: int)
    reads ws, ws.low, ws.high, ws.low.blocks, ws.high.blocks, offsets
  {
    && ws.Valid() && ws.which <= 1
    && var entry := ws.Other();
       && RunAt(m, alts, s, init, start, opts.notEmpty, ptr, hist, entry, ends)
       && start <= ptr <= |s|
       && Stored(offsets[..], before, size, start, ends) && mc == CountFor(|ends|, size)
       && (opts.shortest ==> ends == [])
       && Ages(m, init, entry, ptr - start)
  }

  /** Partial matching: report the whole rest of the subject if it may be the start of a match. */
  method Finish(s: seq<Byte>, start: nat, opts: Options, ptr: nat, offsets: array<int>, size: nat, matchCount: int)
    returns (rc: int)
    requires size <= offsets.Length
    modifies offsets
    ensures var partial := matchCount < 0 && opts.partial && ptr >= |s| && ptr > start;
            && rc == (if partial then PARTIAL else matchCount)
            && offsets[..] == (if partial && size >= 2 then old(offsets[..])[0 := start][1 := |s|]
                               else old(offsets[..]))
  {
    rc := matchCount;
    if matchCount < 0 && opts.partial && ptr >= |s| && ptr > start {
      if size >= 2 {
        offsets[0] := start;
        offsets[1] := |s|;
      }
      rc := PARTIAL;
    }
  }

  datatype Move = Go | Stop(rc: int)

  /** The new states become the active ones, and are scanned. */
  method SwapAndScan(m: Machine, ghost alts: Alts, s: seq<Byte>, start: nat, opts: Options, ptr: nat, ws: Workspace,
                     offsets: array<int>, size: nat, matchCount: int, ghost before: seq<int>, ghost ends: seq<nat>,
                     ghost max: nat)
    returns (status: Status, mc: int, ghost ends': seq<nat>)
    requires Compiled(m, alts) && start <= ptr <= |s| && ws.Valid() && ws.which <= 1
    requires AllSane(m, alts, ws.Other()) && CountsUpTo(ws.Other(), max)
    requires Stored(offsets[..], before, size, start, ends) && matchCount == CountFor(|ends|, size)
    modifies ws, ws.low, ws.high, ws.low.blocks, ws.high.blocks, offsets
    ensures ws.Valid() && ws.which <= 1
    ensures Stored(offsets[..], before, size, start, ends') && mc == CountFor(|ends'|, size)
    ensures status == Done ==>
              && Scanned(m, alts, s, ptr, old(ws.Other()), ws.Current(), |ws.Current()|, ws.Other())
              && ends' == (if End(m) in ws.Current() && Allowed(opts, start, ptr) then ends + [ptr] else ends)
              && CountsUpTo(ws.Other(), max + 1)
              && |ws.Other()| <= |m.code| * (max + 1)
              && ws.Saved() == old(ws.Other())
    ensures status == Hit ==> opts.shortest && Allowed(opts, start, ptr) && ends' == ends + [ptr] &&
                              Live(m, s, old(ws.Other()), ptr, End(m), ptr)
    ensures opts.shortest && status == Done ==> ends' == ends
    ensures status == Full ==> ws.limit < |old(ws.Other())| + |m.code| * (max + 1) * |m.code| ||
                               ws.limit < |m.code| * (max + 1)
  {
    hide Live, Active, New, Sane, Stored, CountFor, Scanned, Compiled, AllSane, CountsUpTo;
    var active, newer := if ws.which == 0 then ws.high else ws.low, if ws.which == 0 then ws.low else ws.high;
    ghost var entry := active.Items();
    newer.count := 0;
    ws.which := 1 - ws.which;
    ws.saved := active.count;
    assert active.Items() == entry;
    CompiledSized(m, alts);
    status, mc, ends' := ScanPosition(m, alts, s, start, ptr, opts, active, newer, offsets, size, matchCount, before,
                                      ends, max);
    if status == Done {
      SavedIsEntry(m, alts, s, ptr, entry, active.Items(), newer.Items());
      assert ws.Saved() == active.Items()[..|entry|];
    }
  }

  /** One turn of the matching loop: swap the vectors, scan, and stop if nothing is brought forward. */
  method Turn(m: Machine, ghost alts: Alts, s: seq<Byte>, ghost init: seq<State>, start: nat, opts: Options, ptr: nat,
              ghost hist: seq<set<State>>, ghost ends: seq<nat>, ws: Workspace, offsets: array<int>, size: nat,
              ghost before: seq<int>, matchCount: int)
    returns (move: Move, mc: int, ghost hist': seq<set<State>>, ghost ends': seq<nat>)
    requires AltsOk(alts) && m.tables.Sized()
    requires Between(m, alts, s, init, start, opts, ptr, hist, ends, ws, offsets, size, before, matchCount)
    modifies ws, ws.low, ws.high, ws.low.blocks, ws.high.blocks, offsets
    ensures ws.Valid()
    ensures move.Go? ==> ptr < |s|
    ensures move.Go? ==> Between(m, alts, s, init, start, opts, ptr + 1, hist', ends', ws, offsets, size, before, mc)
    ensures move.Stop? ==>
              Outcome(m, alts, s, init, start, opts, size, ws.limit, before, offsets[..], move.rc, ends', ws.Saved())
  {
    hide Live, Active, New, Sane, Stored, CountFor, RunAt, Scanned, Compiled, SpaceBound, AllSane, CountsUpTo, ToSet,
         Outcome, Ages, TooSmall, Workspace.Other, Workspace.Current, Workspace.Saved;
    ghost var entry, max := ws.Other(), MaxCount(init) + (ptr - start);
    RunFacts(m, alts, s, init, start, opts.notEmpty, ptr, hist, entry, ends);
    var status;
    status, mc, ends' := SwapAndScan(m, alts, s, start, opts, ptr, ws, offsets, size, matchCount, before, ends, max);
    hist' := hist;
    if status == Full {
      FullTooSmall(m, init, entry, ptr - start, |s| - start, ws.limit);
      OutcomeFull(m, alts, s, init, start, opts, size, ws.limit, before, offsets[..], ends', ws.Saved());
      move := Stop(WSSIZE);
    } else if status == Hit {
      assert ends == [] && ends' == [ptr];
      OutcomeHit(m, alts, s, init, start, opts, ptr, hist, entry, size, ws.limit, before, offsets[..], mc, ws.Saved());
      move := Stop(mc);
    } else {
      ghost var items, news := ws.Current(), ws.Other();
      var none := NoneNew(ws);
      if none {
        OutcomeDone(m, alts, s, init, start, opts, ptr, hist, entry, ends, items, size, ws.limit, before, offsets[..],
                    mc, ends');
        mc := Finish(s, start, opts, ptr, offsets, size, mc);
        move := Stop(mc);
      } else {
        RunNext(m, alts, s, init, start, opts.notEmpty, ptr, hist, entry, ends, items, news, ends');
        NextAges(m, init, news, ptr - start);
        hist' := hist + [ToSet(items)];
        move := Go;
      }
    }
  }

  method NoneNew(ws: Workspace) returns (none: bool)
    requires ws.Valid()
    ensures none <==> ws.Other() == []
  {
    none := (if ws.which != 0 then ws.low else ws.high).count == 0;
  }

  lemma {:induction false} OutcomeFull(m: Machine, alts: Alts, s: seq<Byte>, init: seq<State>, start: nat,
                                       opts: Options, size: nat, limit: nat, before: seq<int>, after: seq<int>,
                                       ends: seq<nat>, saved: seq<State>)
    requires AltsOk(alts) && m.tables.Sized() && start <= |s|
    requires TooSmall(m, init, |s| - start, limit)
    ensures Outcome(m, alts, s, init, start, opts, size, limit, before, after, WSSIZE, ends, saved)
  {}

  lemma {:induction false} MaxCountLeast(sts: seq<State>, age: nat)
    requires CountsUpTo(sts, age)
    ensures MaxCount(sts) <= age
  {
    if sts != [] {
      MaxCountLeast(sts[1..], age);
    }
  }

  /** No room, `p` characters after the start. */
  lemma {:induction false} FullTooSmall(m: Machine, init: seq<State>, entry: seq<State>, p: nat, n: nat, limit: nat)
    requires p <= n && Ages(m, init, entry, p)
    requires var max := MaxCount(init) + p;
             limit < |entry| + |m.code| * (max + 1) * |m.code| || limit < |m.code| * (max + 1)
    ensures TooSmall(m, init, n, limit)
  {
    hide SpaceBound;
    var l, max := |m.code|, MaxCount(init) + p;
    forall age: nat | Young(m, init, age) ensures limit < SpaceBound(l, age + n) {
      MaxCountLeast(init, age);
      assert Young(m, entry, age + p);
      LessEnough(l, max, age + p, age + n, |entry|, limit);
    }
  }

  lemma {:induction false} LessEnough(l: nat, max: nat, p: nat, n: nat, entry: nat, limit: nat)
    requires max <= p <= n && entry <= l * (p + 1)
    requires limit < entry + l * (max + 1) * l || limit < l * (max + 1)
    ensures limit < SpaceBound(l, n)
  {
    hide SpaceBound;
    var a, b := l * (max + 1), l * (p + 1);
    TimesLeft(max + 1, p + 1, l);
    Times(a, b, l);
    SpaceEnough(l, p, n, entry, limit);
  }

  lemma {:induction false} NextAges(m: Machine, init: seq<State>, newer: seq<State>, p: nat)
    requires var max := MaxCount(init) + p; CountsUpTo(newer, max + 1) && |newer| <= |m.code| * (max + 1)
    ensures Ages(m, init, newer, p + 1)
  {
    forall age: nat | Young(m, init, age) ensures Young(m, newer, age + (p + 1)) {
      MaxCountLeast(init, age);
      TimesLeft(MaxCount(init) + p + 1, age + p + 2, |m.code|);
    }
  }

  lemma {:induction false} SameAge(m: Machine, init: seq<State>)
    ensures Ages(m, init, init, 0)
  {}

  lemma {:induction false} AgesLonger(m: Machine, init: seq<State>, sts: seq<State>, p: nat, n: nat)
    requires Ages(m, init, sts, p) && p <= n
    ensures Ages(m, init, sts, n)
  {
    forall age: nat | Young(m, init, age) ensures Young(m, sts, age + n) {
      assert Young(m, sts, age + p);
      TimesLeft(age + p + 1, age + n + 1, |m.code|);
    }
  }

  lemma {:induction false} OutcomeHit(m: Machine, alts: Alts, s: seq<Byte>, init: seq<State>, start: nat, opts: Options,
                                      ptr: nat, hist: seq<set<State>>, entry: seq<State>, size: nat, limit: nat,
                                      before: seq<int>, after: seq<int>, mc: int, saved: seq<State>)
    requires AltsOk(alts) && m.tables.Sized()
    requires RunAt(m, alts, s, init, start, opts.notEmpty, ptr, hist, entry, [])
    requires opts.shortest && Allowed(opts, start, ptr) && Live(m, s, entry, ptr, End(m), ptr)
    requires Stored(after, before, size, start, [ptr]) && mc == CountFor(1, size)
    ensures start <= |s| && Outcome(m, alts, s, init, start, opts, size, limit, before, after, mc, [ptr], saved)
  {
    hide Live, Stored, AllSane, SpaceBound;
    FirstHit(m, alts, s, init, start, opts, ptr, hist, entry);
  }

  /** The last position has been scanned; `vector` holds the recorded matches. */
  lemma {:induction false} OutcomeDone(m: Machine, alts: Alts, s: seq<Byte>, init: seq<State>, start: nat,
                                       opts: Options, ptr: nat, hist: seq<set<State>>, entry: seq<State>,
                                       ends: seq<nat>, items: seq<State>, size: nat, limit: nat, before: seq<int>,
                                       vector: seq<int>, mc: int, ends': seq<nat>)
    requires AltsOk(alts) && m.tables.Sized()
    requires RunAt(m, alts, s, init, start, opts.notEmpty, ptr, hist, entry, ends)
    requires Scanned(m, alts, s, ptr, entry, items, |items|, [])
    requires ends' == if End(m) in items && Allowed(opts, start, ptr) then ends + [ptr] else ends
    requires Stored(vector, before, size, start, ends') && mc == CountFor(|ends'|, size)
             && Ages(m, init, entry, ptr - start)
    ensures start <= |s| && size <= |vector|
    ensures var partial := mc < 0 && opts.partial && ptr >= |s| && ptr > start;
            var after := if partial && size >= 2 then vector[0 := start][1 := |s|] else vector;
            Outcome(m, alts, s, init, start, opts, size, limit, before, after, if partial then PARTIAL else mc, ends',
                    entry)
  {
    hide Live, AllSane, SpaceBound, Scanned, AllMatches, RunAt, Min, Ages;
    RunFacts(m, alts, s, init, start, opts.notEmpty, ptr, hist, entry, ends);
    AgesLonger(m, init, entry, ptr - start, |s| - start);
    RunLast(m, alts, s, init, start, opts.notEmpty, ptr, hist, entry, ends, items, ends');
    EntryLive(m, alts, s, init, start, opts.notEmpty, ptr, hist, entry, ends);
    var partial := mc < 0 && opts.partial && ptr >= |s| && ptr > start;
    var alive := exists b :: Live(m, s, init, start, b, |s|);
    if ends' == [] {
      StoredNothing(vector, before, size, start);
    }
    if partial {
      assert entry[0] in entry;
    }
    assert partial <==> ends' == [] && opts.partial && |s| > start && alive;
    if ptr > start {
      assert Live(m, s, init, start, entry[0], ptr);
    }
    assert LeftAt(m, s, init, start, entry, ptr);
  }

  lemma {:induction false} StoredNothing(v: seq<int>, before: seq<int>, size: nat, start: nat)
    requires Stored(v, before, size, start, [])
    ensures v == before
  {}

  lemma {:induction false} EntryLive(m: Machine, alts: Alts, s: seq<Byte>, init: seq<State>, start: nat, notEmpty: bool,
                                     ptr: nat, hist: seq<set<State>>, entry: seq<State>, ends: seq<nat>)
    requires m.tables.Sized() && RunAt(m, alts, s, init, start, notEmpty, ptr, hist, entry, ends)
    ensures start <= ptr <= |s|
    ensures forall b :: b in entry ==> Live(m, s, init, start, b, ptr)
    ensures if ptr == start then entry == init else entry != []
  {
    hide Live;
  }

  /** internal_dfa_exec at the top level: match from `start`, or take up a partial match there. */
  method InternalDfaExec(code: seq<Byte>, tables: Tables, ims: Ims, ghost alts: Alts, s: seq<Byte>, start: nat,
                         opts: Options, offsets: array<int>, offsetcount: nat, ws: Workspace)
    returns (rc: int, ghost ends: seq<nat>)
    requires AltsOk(alts) && Fits(ims, alts) && code == Pattern(ims, alts) && tables.Valid()
    requires start <= |s| && offsetcount <= offsets.Length && ws.Valid()
    requires opts.restart ==> AllSane(PatternMachine(ims, tables, alts), alts, ws.Saved())
    modifies ws, ws.low, ws.high, ws.low.blocks, ws.high.blocks, offsets
    ensures ws.Valid() && tables.Sized()
    ensures Outcome(PatternMachine(ims, tables, alts), alts, s,
                    old(InitialStates(PatternMachine(ims, tables, alts), opts, ws)), start, opts,
                    offsetcount - offsetcount % 2, ws.limit, old(offsets[..]), offsets[..], rc, ends, ws.Saved())
  {
    hide Between, Outcome, RunAt, Stored, CountFor, PatternMachine, Tables.Valid, Fits, SpaceBound, Get, ChainOk,
         SkipAlts, Pattern;
    var size := offsetcount - offsetcount % 2;
    CompiledMachine(ims, tables, alts);
    var end := FindKet(code, 0);
    var m := Machine(code, end, ims, tables);
    ghost var init, before := InitialStates(m, opts, ws), offsets[..];
    ends := [];
    var ok := Begin(m, alts, opts, ws);
    if !ok {
      BeginTooSmall(m, init, |s| - start, ws.limit);
      OutcomeFull(m, alts, s, init, start, opts, size, ws.limit, before, offsets[..], ends, ws.Saved());
      return WSSIZE, ends;
    }
    RunStart(m, alts, s, init, start, opts.notEmpty);
    StoredNone(before, size, start);
    var ptr, mc := start, NOMATCH;
    ghost var hist: seq<set<State>> := [];
    StartsBetween(m, alts, s, init, start, opts, ws, offsets, size, before);
    while true
      invariant ptr <= |s|
      invariant Between(m, alts, s, init, start, opts, ptr, hist, ends, ws, offsets, size, before, mc)
      decreases |s| - ptr
    {
      var move;
      move, mc, hist, ends := Turn(m, alts, s, init, start, opts, ptr, hist, ends, ws, offsets, size, before, mc);
      if move.Stop? {
        return move.rc, ends;
      }
      ptr := ptr + 1;
    }
  }

  lemma {:induction false} StartsBetween(m: Machine, alts: Alts, s: seq<Byte>, init: seq<State>, start: nat,
                                         opts: Options, ws: Workspace, offsets: array<int>, size: nat, before: seq<int>)
    requires ws.Valid() && ws.which == 0 && start <= |s| && before == offsets[..] && ws.Other() == init
    requires RunAt(m, alts, s, init, start, opts.notEmpty, start, [], init, [])
    requires Stored(before, before, size, start, [])
    ensures Between(m, alts, s, init, start, opts, start, [], [], ws, offsets, size, before, NOMATCH)
  {
    hide RunAt, Stored, Ages;
    SameAge(m, init);
  }

  lemma {:induction false} BeginTooSmall(m: Machine, init: seq<State>, n: nat, limit: nat)
    requires limit < |m.code|
    ensures TooSmall(m, init, n, limit)
  {
    forall age: nat | Young(m, init, age) ensures limit < SpaceBound(|m.code|, age + n) {
      SpaceEnough(|m.code|, 0, age + n, 0, limit);
    }
  }

  /** The states to begin with are young. */
  lemma {:induction false} BranchesYoung(m: Machine, alts: Alts)
    requires Compiled(m, alts)
    ensures Young(m, Branches(m.code, 0), 0)
  {
    hide Compiled, Branches, Sane, Get;
    BranchesSane(m, alts);
    BranchesSize(m.code, 0);
  }

  lemma {:induction false} CompiledMachine(ims: Ims, tables: Tables, alts: Alts)
    requires AltsOk(alts) && Fits(ims, alts) && tables.Valid()
    ensures var m := PatternMachine(ims, tables, alts);
            && Compiled(m, alts) && ChainOk(m.code, 0)
            && m == Machine(Pattern(ims, alts), SkipAlts(m.code, 0), ims, tables)
  {
    BranchesSane(PatternMachine(ims, tables, alts), alts);
  }

  lemma {:induction false} StoredNone(before: seq<int>, size: nat, start: nat)
    requires size % 2 == 0 && size <= |before|
    ensures Stored(before, before, size, start, []) && CountFor(0, size) == NOMATCH
  {}

  lemma {:induction false} RunFacts(m: Machine, alts: Alts, s: seq<Byte>, init: seq<State>, start: nat, notEmpty: bool,
                                    ptr: nat, hist: seq<set<State>>, entry: seq<State>, ends: seq<nat>)
    requires RunAt(m, alts, s, init, start, notEmpty, ptr, hist, entry, ends)
    ensures Compiled(m, alts) && start <= ptr <= |s| && |hist| == ptr - start
    ensures AllSane(m, alts, entry) && CountsUpTo(entry, MaxCount(init) + (ptr - start))
  {}

  lemma {:induction false} SavedIsEntry(m: Machine, alts: Alts, s: seq<Byte>, ptr: nat, entry: seq<State>,
                                        items: seq<State>, newer: seq<State>)
    requires AltsOk(alts) && m.tables.Sized() && Scanned(m, alts, s, ptr, entry, items, |items|, newer)
    ensures |entry| <= |items| && items[..|entry|] == entry
  {}

  /** The first end met is the smallest. */
  lemma {:induction false} FirstHit(m: Machine, alts: Alts, s: seq<Byte>, init: seq<State>, start: nat, opts: Options,
                                    ptr: nat, hist: seq<set<State>>, entry: seq<State>)
    requires RunAt(m, alts, s, init, start, opts.notEmpty, ptr, hist, entry, [])
    requires Live(m, s, entry, ptr, End(m), ptr)
    ensures Live(m, s, init, start, End(m), ptr)
    ensures forall e: nat :: Live(m, s, init, start, End(m), e) && Allowed(opts, start, e) ==> ptr <= e
  {
    hide Fits, PatternMachine, Tables.Valid, Active, New, Sane, Live, Closed;
    LiveThrough(m, s, init, start, entry, ptr, End(m), ptr);
    forall e: nat | Live(m, s, init, start, End(m), e) && Allowed(opts, start, e)
      ensures ptr <= e
    {
      if e < ptr {
        LiveForward(m, s, init, start, End(m), e);
        CoversLive(m, s, init, start, hist, ToSet(entry), End(m), e);
        Recorded(m, alts, s, init, start, opts, ptr, hist, entry, [], e);
        assert false;
      }
    }
  }

  lemma {:induction false} Recorded(m: Machine, alts: Alts, s: seq<Byte>, init: seq<State>, start: nat, opts: Options,
                                    ptr: nat, hist: seq<set<State>>, entry: seq<State>, ends: seq<nat>, e: nat)
    requires RunAt(m, alts, s, init, start, opts.notEmpty, ptr, hist, entry, ends)
    requires start <= e < ptr && End(m) in hist[e - start] && Allowed(opts, start, e)
    ensures e in ends
  {}

  lemma {:induction false} LiveForward(m: Machine, s: seq<Byte>, init: seq<State>, start: nat, b: State, j: nat)
    requires m.tables.Sized() && Live(m, s, init, start, b, j)
    ensures start <= j && (start <= |s| ==> j <= |s|)
  {
    hide Path;
    var a :| a in init && Reaches(m, s, a, start, b, j);
    var k: nat :| Path(m, s, k, a, start, b, j);
    PathForward(m, s, k, a, start, b, j);
  }
}
