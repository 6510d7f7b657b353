/** How balancing divides the cells of neighbouring pages among new pages: as much as fits on
    each from the left, then evened out from the right. */
module BalancePacking {

  const NB := 3

  // ------------------------------------------------------------ divisions

  /** Bytes taken by cells `a` up to `b`, with their pointers. */
  ghost function Load(sz: seq<nat>, a: nat, b: nat): nat
    requires b <= |sz|
    decreases b
  {
    if a >= b then 0 else Load(sz, a, b - 1) + sz[b - 1] + 2
  }

  /** On leaves that keep all data no cell is lost as a divider; elsewhere one cell separates two pages. */
  ghost function Gap(leafData: bool): nat { if leafData then 0 else 1 }

  /** The first cell of a page; each page ends before its cut. */
  ghost function Start(cuts: seq<nat>, leafData: bool, i: nat): nat
    requires i <= |cuts|
  {
    if i == 0 then 0 else cuts[i - 1] + Gap(leafData)
  }

  /** The bytes on a page. */
  ghost function PageLoad(sz: seq<nat>, cuts: seq<nat>, leafData: bool, i: nat): nat
    requires i < |cuts| && cuts[i] <= |sz|
  {
    Load(sz, Start(cuts, leafData, i), cuts[i])
  }

  ghost predicate PageOk(n: nat, cuts: seq<nat>, leafData: bool, i: nat)
    requires i < |cuts|
  {
    Start(cuts, leafData, i) <= cuts[i] <= n
  }

  ghost predicate Division(n: nat, cuts: seq<nat>, leafData: bool) {
    && cuts != [] && cuts[|cuts| - 1] == n
    && forall i :: 0 <= i < |cuts| ==> PageOk(n, cuts, leafData, i)
  }

  ghost predicate PageFits(sz: seq<nat>, usable: nat, leafData: bool, cuts: seq<nat>, i: nat)
    requires i < |cuts|
  {
    cuts[i] <= |sz| && PageLoad(sz, cuts, leafData, i) <= usable
  }

  /** A division whose every page has room for its cells. */
  ghost predicate Legal(sz: seq<nat>, usable: nat, leafData: bool, cuts: seq<nat>) {
    && Division(|sz|, cuts, leafData)
    && forall i :: 0 <= i < |cuts| ==> PageFits(sz, usable, leafData, cuts, i)
  }

  ghost predicate PageFilled(cuts: seq<nat>, leafData: bool, i: nat)
    requires i < |cuts|
  {
    Start(cuts, leafData, i) < cuts[i]
  }

  ghost predicate NonEmpty(cuts: seq<nat>, leafData: bool) {
    forall i :: 0 <= i < |cuts| ==> PageFilled(cuts, leafData, i)
  }

  /** Any cell fits on a page of data; any two cells fit on another page. */
  ghost predicate Modest(sz: seq<nat>, usable: nat, leafData: bool) {
    forall i :: 0 <= i < |sz| ==> sz[i] >= 4 && (if leafData then 1 else 2) * (sz[i] + 2) <= usable
  }

  lemma {:induction false} LoadGrows(sz: seq<nat>, a: nat, b: nat, c: nat, d: nat)
    requires c <= a && b <= d <= |sz|
    ensures Load(sz, a, b) <= Load(sz, c, d)
    decreases d - c
  {
    if a < b {
      if b < d {
        LoadGrows(sz, a, b, c, d - 1);
      } else if c < a {
        LoadFront(sz, c, d);
        LoadGrows(sz, a, b, c + 1, d);
      }
    }
  }

  lemma {:induction false} LoadFront(sz: seq<nat>, a: nat, b: nat)
    requires a < b <= |sz|
    ensures Load(sz, a, b) == sz[a] + 2 + Load(sz, a + 1, b)
    decreases b
  {
    if a + 1 < b {
      LoadFront(sz, a, b - 1);
    }
  }

  // ------------------------------------------------------------ from the left

  /** A closed page has room for its cells, but not for the cell after them. */
  ghost predicate PageClosed(sz: seq<nat>, usable: nat, leafData: bool, cuts: seq<nat>, j: nat)
    requires j < |cuts|
  {
    && Start(cuts, leafData, j) < cuts[j] < |sz|
    && (leafData || Start(cuts, leafData, j) + 2 <= cuts[j])
    && Load(sz, Start(cuts, leafData, j), cuts[j]) <= usable < Load(sz, Start(cuts, leafData, j), cuts[j] + 1)
  }

  ghost predicate Closed(sz: seq<nat>, usable: nat, leafData: bool, cuts: seq<nat>) {
    forall j :: 0 <= j < |cuts| ==> PageClosed(sz, usable, leafData, cuts, j)
  }

  /** Filling from the left gets at least as far as any legal division, page by page. */
  lemma {:induction false} AtLeastAsFar(sz: seq<nat>, usable: nat, leafData: bool, cuts: seq<nat>, other: seq<nat>,
                                        j: nat)
    requires Closed(sz, usable, leafData, cuts) && Legal(sz, usable, leafData, other) && j < |cuts| && j < |other|
    ensures cuts[j] >= other[j]
  {
    hide Load;
    if j > 0 {
      AtLeastAsFar(sz, usable, leafData, cuts, other, j - 1);
    }
    assert PageClosed(sz, usable, leafData, cuts, j) && PageFits(sz, usable, leafData, other, j)
           && PageOk(|sz|, other, leafData, j);
    if cuts[j] < other[j] {
      LoadGrows(sz, Start(cuts, leafData, j), cuts[j] + 1, Start(other, leafData, j), other[j]);
    }
  }

  /** So it closes fewer pages than any legal division has. */
  lemma {:induction false} FewerClosed(sz: seq<nat>, usable: nat, leafData: bool, cuts: seq<nat>, other: seq<nat>)
    requires Closed(sz, usable, leafData, cuts) && Legal(sz, usable, leafData, other)
    ensures |cuts| < |other|
  {
    hide Load;
    if |cuts| >= |other| {
      assert PageClosed(sz, usable, leafData, cuts, |other| - 1);
      AtLeastAsFar(sz, usable, leafData, cuts, other, |other| - 1);
    }
  }

  /** Pages before the last do not change when one is added. */
  lemma {:induction false} StartMore(cuts: seq<nat>, leafData: bool, i: nat, j: nat)
    requires j <= |cuts|
    ensures Start(cuts + [i], leafData, j) == Start(cuts, leafData, j)
  {}

  lemma {:induction false} CloseOne(sz: seq<nat>, usable: nat, leafData: bool, cuts: seq<nat>, i: nat)
    requires Closed(sz, usable, leafData, cuts) && Modest(sz, usable, leafData) && i < |sz|
             && Start(cuts, leafData, |cuts|) <= i
    requires Load(sz, Start(cuts, leafData, |cuts|), i) <= usable < Load(sz, Start(cuts, leafData, |cuts|), i + 1)
    ensures Closed(sz, usable, leafData, cuts + [i])
  {
    hide Load, Start;
    var more, a := cuts + [i], Start(cuts, leafData, |cuts|);
    if a == i {
      LoadOne(sz, i);
    } else if a + 1 == i && !leafData {
      LoadTwo(sz, a);
    }
    forall j | 0 <= j < |more| ensures PageClosed(sz, usable, leafData, more, j) {
      StartMore(cuts, leafData, i, j);
      if j < |cuts| {
        assert PageClosed(sz, usable, leafData, cuts, j);
      }
    }
  }

  lemma {:induction false} LoadOne(sz: seq<nat>, i: nat)
    requires i < |sz|
    ensures Load(sz, i, i + 1) == sz[i] + 2
  {}

  lemma {:induction false} LoadTwo(sz: seq<nat>, i: nat)
    requires i + 1 < |sz|
    ensures Load(sz, i, i + 2) == sz[i] + sz[i + 1] + 4
  {
    LoadOne(sz, i);
  }

  /** Put as many cells on each page as fit. The size noted for a closed page is two bytes too large. */
  method Fill(sz: seq<nat>, usable: nat, leafData: bool, cntNew: array<nat>, szNew: array<nat>, ghost other: seq<nat>)
    returns (k: nat)
    requires Modest(sz, usable, leafData) && Legal(sz, usable, leafData, other)
             && |other| <= cntNew.Length == szNew.Length
    requires cntNew != szNew
    modifies cntNew, szNew
    ensures 0 < k <= |other| && Legal(sz, usable, leafData, cntNew[..k])
    ensures Closed(sz, usable, leafData, cntNew[..k - 1])
    ensures Weighed(sz, leafData, cntNew[..k], szNew[..k])
  {
    hide Load, Legal, Closed, Noted, Weighed;
    var subtotal, i := 0, 0;
    k := 0;
    NothingNoted(sz, leafData);
    StartClosed(sz, usable, leafData);
    FewerClosed(sz, usable, leafData, [], other);
    assert cntNew[..0] == [] && szNew[..0] == [];
    while i < |sz|
      invariant 0 <= i <= |sz| && k < |other| && Closed(sz, usable, leafData, cntNew[..k])
      invariant Start(cntNew[..k], leafData, k) <= i
                && subtotal == Load(sz, Start(cntNew[..k], leafData, k), i) <= usable
      invariant Noted(sz, leafData, cntNew[..k], szNew[..k])
      decreases 2 * (|sz| - i) + if subtotal > 0 then 1 else 0
    {
      ghost var cuts, notes, a := cntNew[..k], szNew[..k], Start(cntNew[..k], leafData, k);
      LoadStep(sz, a, i);
      subtotal := subtotal + sz[i] + 2;
      if subtotal > usable {
        CloseOne(sz, usable, leafData, cuts, i);
        FewerClosed(sz, usable, leafData, cuts + [i], other);
        szNew[k] := subtotal - sz[i];
        cntNew[k] := i;
        assert cntNew[..k + 1] == cuts + [i] && szNew[..k + 1] == notes + [subtotal - sz[i]];
        NoteOne(sz, leafData, cuts, notes, i);
        if leafData {
          i := i - 1;
        }
        subtotal := 0;
        k := k + 1;
        LoadNone(sz, i + 1);
      }
      i := i + 1;
    }
    ghost var cuts, notes := cntNew[..k], szNew[..k];
    szNew[k] := subtotal;
    cntNew[k] := |sz|;
    assert cntNew[..k + 1] == cuts + [|sz|] && szNew[..k + 1] == notes + [subtotal];
    FillDone(sz, usable, leafData, cuts, notes, subtotal);
    k := k + 1;
    assert cntNew[..k - 1] == cuts;
  }

  lemma {:induction false} StartClosed(sz: seq<nat>, usable: nat, leafData: bool)
    ensures Closed(sz, usable, leafData, []) && Load(sz, 0, 0) == 0
  {}

  lemma {:induction false} LoadStep(sz: seq<nat>, a: nat, b: nat)
    requires a <= b < |sz|
    ensures Load(sz, a, b + 1) == Load(sz, a, b) + sz[b] + 2
  {}

  lemma {:induction false} LoadNone(sz: seq<nat>, a: nat)
    requires a <= |sz|
    ensures Load(sz, a, a) == 0
  {}

  /** The size noted for a closed page is its load and two bytes. */
  ghost predicate NoteOk(sz: seq<nat>, leafData: bool, cuts: seq<nat>, notes: seq<nat>, j: nat, extra: nat)
    requires j < |cuts| == |notes|
  {
    cuts[j] <= |sz| && notes[j] == PageLoad(sz, cuts, leafData, j) + extra
  }

  ghost predicate Noted(sz: seq<nat>, leafData: bool, cuts: seq<nat>, notes: seq<nat>) {
    |notes| == |cuts| && forall j :: 0 <= j < |cuts| ==> NoteOk(sz, leafData, cuts, notes, j, 2)
  }

  ghost function Extra(cuts: seq<nat>, j: nat): nat { if j + 1 < |cuts| then 2 else 0 }

  /** And for the last page its load. */
  ghost predicate Weighed(sz: seq<nat>, leafData: bool, cuts: seq<nat>, notes: seq<nat>) {
    |notes| == |cuts| && forall j :: 0 <= j < |cuts| ==> NoteOk(sz, leafData, cuts, notes, j, Extra(cuts, j))
  }

  lemma {:induction false} NothingNoted(sz: seq<nat>, leafData: bool)
    ensures Noted(sz, leafData, [], [])
  {}

  lemma {:induction false} NoteOne(sz: seq<nat>, leafData: bool, cuts: seq<nat>, notes: seq<nat>, i: nat)
    requires Noted(sz, leafData, cuts, notes) && i < |sz|
    ensures Noted(sz, leafData, cuts + [i], notes + [Load(sz, Start(cuts, leafData, |cuts|), i) + 2])
  {
    hide Load, Start;
    var more, mores := cuts + [i], notes + [Load(sz, Start(cuts, leafData, |cuts|), i) + 2];
    forall j | 0 <= j < |more| ensures NoteOk(sz, leafData, more, mores, j, 2) {
      StartMore(cuts, leafData, i, j);
      if j < |cuts| {
        assert NoteOk(sz, leafData, cuts, notes, j, 2);
      }
    }
  }

  lemma {:induction false} FillDone(sz: seq<nat>, usable: nat, leafData: bool, cuts: seq<nat>, notes: seq<nat>,
                                    subtotal: nat)
    requires Closed(sz, usable, leafData, cuts) && Noted(sz, leafData, cuts, notes)
             && Start(cuts, leafData, |cuts|) <= |sz|
    requires subtotal == Load(sz, Start(cuts, leafData, |cuts|), |sz|) <= usable
    ensures Legal(sz, usable, leafData, cuts + [|sz|]) && Weighed(sz, leafData, cuts + [|sz|], notes + [subtotal])
  {
    hide Load, Start;
    var more, mores := cuts + [|sz|], notes + [subtotal];
    forall j | 0 <= j < |more|
      ensures PageFits(sz, usable, leafData, more, j) && PageOk(|sz|, more, leafData, j)
      ensures NoteOk(sz, leafData, more, mores, j, Extra(more, j))
    {
      StartMore(cuts, leafData, |sz|, j);
      if j < |cuts| {
        assert NoteOk(sz, leafData, cuts, notes, j, 2) && PageClosed(sz, usable, leafData, cuts, j);
      }
    }
  }

  // ------------------------------------------------------------ from the right

  /** The state between two steps of evening out, with pages from `i` on done. Only the last
      page can be empty, and then the page before it has two cells to give. */
  ghost predicate Evening(sz: seq<nat>, usable: nat, leafData: bool, cuts: seq<nat>, notes: seq<nat>, i: nat) {
    && Legal(sz, usable, leafData, cuts) && Weighed(sz, leafData, cuts, notes) && i <= |cuts|
    && (forall j :: 0 <= j < |cuts| - 1 ==> PageFilled(cuts, leafData, j))
    && (PageFilled(cuts, leafData, |cuts| - 1) || |sz| == 0 ||
        (i == |cuts| > 1 && !leafData && Start(cuts, leafData, i - 2) + 2 <= cuts[i - 2]))
  }

  lemma {:induction false} StartTake(cuts: seq<nat>, leafData: bool, n: nat, j: nat)
    requires j <= n <= |cuts|
    ensures Start(cuts[..n], leafData, j) == Start(cuts, leafData, j)
  {}

  lemma {:induction false} EveningStart(sz: seq<nat>, usable: nat, leafData: bool, cuts: seq<nat>, notes: seq<nat>)
    requires Legal(sz, usable, leafData, cuts) && Weighed(sz, leafData, cuts, notes)
             && Closed(sz, usable, leafData, cuts[..|cuts| - 1])
    ensures Evening(sz, usable, leafData, cuts, notes, |cuts|)
  {
    hide Load;
    var k := |cuts|;
    var c := cuts[..k - 1];
    forall j | 0 <= j < k - 1
      ensures PageFilled(cuts, leafData, j) && (leafData || Start(cuts, leafData, j) + 2 <= cuts[j]) && cuts[j] < |sz|
    {
      assert PageClosed(sz, usable, leafData, c, j);
      StartTake(cuts, leafData, k - 1, j);
    }
  }

  lemma {:induction false} StartLess(cuts: seq<nat>, leafData: bool, i: nat, r: nat, j: nat)
    requires i < |cuts| && j <= |cuts|
    ensures Start(cuts[i := r], leafData, j) == if j == i + 1 then r + Gap(leafData) else Start(cuts, leafData, j)
  {}

  /** Moving the cut between pages `i - 1` and `i` down by one cell moves that cell's bytes to the
      right, or turns it into the divider and moves the old divider's bytes. */
  lemma {:induction false} Shift(sz: seq<nat>, leafData: bool, cuts: seq<nat>, i: nat)
    requires Division(|sz|, cuts, leafData) && 0 < i < |cuts| && PageFilled(cuts, leafData, i - 1)
    ensures cuts[i - 1] - 1 + Gap(leafData) < |sz|
    ensures var r := cuts[i - 1] - 1;
            var less := cuts[i - 1 := r];
            && Division(|sz|, less, leafData) && PageOk(|sz|, less, leafData, i) && PageOk(|sz|, cuts, leafData, i)
            && PageLoad(sz, less, leafData, i - 1) + sz[r] + 2 == PageLoad(sz, cuts, leafData, i - 1)
            && PageLoad(sz, less, leafData, i) == PageLoad(sz, cuts, leafData, i) + sz[r + Gap(leafData)] + 2
    ensures PageFilled(cuts[i - 1 := cuts[i - 1] - 1], leafData, i)
  {
    hide Start;
    var r := cuts[i - 1] - 1;
    var less := cuts[i - 1 := r];
    var d := r + Gap(leafData);
    StartAfter(cuts, leafData, i);
    assert PageOk(|sz|, cuts, leafData, i) && PageOk(|sz|, cuts, leafData, i - 1);
    LoadFront(sz, d, cuts[i]);
    forall j | 0 <= j < |cuts| ensures PageOk(|sz|, less, leafData, j) {
      StartLess(cuts, leafData, i - 1, r, j);
      assert PageOk(|sz|, cuts, leafData, j);
    }
    StartLess(cuts, leafData, i - 1, r, i);
    StartLess(cuts, leafData, i - 1, r, i - 1);
  }

  lemma {:induction false} StartAfter(cuts: seq<nat>, leafData: bool, i: nat)
    requires 0 < i <= |cuts|
    ensures Start(cuts, leafData, i) == cuts[i - 1] + Gap(leafData)
  {}

  /** The other pages keep their cells. */
  lemma {:induction false} ShiftOther(sz: seq<nat>, leafData: bool, cuts: seq<nat>, i: nat, r: nat, j: nat)
    requires 0 < i < |cuts| && j < |cuts| && j != i && j != i - 1 && cuts[j] <= |sz|
    ensures PageLoad(sz, cuts[i - 1 := r], leafData, j) == PageLoad(sz, cuts, leafData, j)
    ensures PageFilled(cuts[i - 1 := r], leafData, j) == PageFilled(cuts, leafData, j)
  {
    StartLess(cuts, leafData, i - 1, r, j);
  }

  /** One step of evening out: page `i` takes a cell from page `i - 1`, if it has none, or stays
      the smaller of the two by doing so. */
  lemma {:induction false} EvenStep(sz: seq<nat>, usable: nat, leafData: bool, cuts: seq<nat>, notes: seq<nat>, i: nat,
                                    r: nat, d: nat)
    requires Modest(sz, usable, leafData) && Evening(sz, usable, leafData, cuts, notes, i + 1) && 0 < i < |cuts|
    requires r + 1 == cuts[i - 1] && d == r + Gap(leafData) && d < |sz|
    requires notes[i] == 0 || notes[i] + sz[d] + 2 + (sz[r] + 2) <= notes[i - 1]
    ensures notes[i - 1] >= sz[r] + 2
    ensures Evening(sz, usable, leafData, cuts[i - 1 := r],
                    notes[i - 1 := notes[i - 1] - (sz[r] + 2)][i := notes[i] + sz[d] + 2], i + 1)
    ensures PageFilled(cuts[i - 1 := r], leafData, i)
  {
    hide Load, PageLoad, Start;
    var less := cuts[i - 1 := r];
    EvenFacts(sz, usable, leafData, cuts, notes, i, r, d);
    var mores := notes[i - 1 := notes[i - 1] - (sz[r] + 2)][i := notes[i] + sz[d] + 2];
    Shift(sz, leafData, cuts, i);
    assert NoteOk(sz, leafData, cuts, notes, i - 1, Extra(cuts, i - 1))
           && NoteOk(sz, leafData, cuts, notes, i, Extra(cuts, i));
    assert PageFits(sz, usable, leafData, cuts, i - 1);
    forall j | 0 <= j < |less|
      ensures PageFits(sz, usable, leafData, less, j) && NoteOk(sz, leafData, less, mores, j, Extra(less, j))
      ensures j < |less| - 1 ==> PageFilled(less, leafData, j)
    {
      if j != i && j != i - 1 {
        assert PageFits(sz, usable, leafData, cuts, j) && NoteOk(sz, leafData, cuts, notes, j, Extra(cuts, j));
        ShiftOther(sz, leafData, cuts, i, r, j);
        if j < |less| - 1 {
          assert PageFilled(cuts, leafData, j);
        }
      }
    }
    if i < |cuts| - 1 {
      ShiftOther(sz, leafData, cuts, i, r, |cuts| - 1);
    }
    assert PageFilled(less, leafData, |less| - 1);
  }

  lemma {:induction false} EvenFacts(sz: seq<nat>, usable: nat, leafData: bool, cuts: seq<nat>, notes: seq<nat>, i: nat,
                                     r: nat, d: nat)
    requires Modest(sz, usable, leafData) && Evening(sz, usable, leafData, cuts, notes, i + 1) && 0 < i < |cuts|
    requires r + 1 == cuts[i - 1] && d == r + Gap(leafData) && d < |sz|
    requires notes[i] == 0 || notes[i] + sz[d] + 2 + (sz[r] + 2) <= notes[i - 1]
    ensures PageFilled(cuts, leafData, i - 1) && notes[i - 1] >= sz[r] + 2 && |notes| == |cuts|
    ensures PageFilled(cuts[i - 1 := r], leafData, i - 1)
    ensures PageOk(|sz|, cuts, leafData, i) && PageLoad(sz, cuts, leafData, i) + sz[d] + 2 <= usable
    ensures i < |cuts| - 1 ==> PageFilled(cuts, leafData, |cuts| - 1)
  {
    hide Load, Start;
    assert PageFilled(cuts, leafData, i - 1) && PageOk(|sz|, cuts, leafData, i);
    StartLess(cuts, leafData, i - 1, r, i - 1);
    assert NoteOk(sz, leafData, cuts, notes, i - 1, Extra(cuts, i - 1))
           && NoteOk(sz, leafData, cuts, notes, i, Extra(cuts, i));
    assert PageFits(sz, usable, leafData, cuts, i - 1) && PageOk(|sz|, cuts, leafData, i - 1);
    assert sz[d] >= 4 && sz[r] >= 4;
    var a := Start(cuts, leafData, i - 1);
    LoadStep(sz, a, r);
    if a == r {
      LoadNone(sz, r);
    }
    if notes[i] == 0 && Start(cuts, leafData, i) < cuts[i] {
      LoadStep(sz, Start(cuts, leafData, i), cuts[i] - 1);
    }
  }

  /** A page with something on it needs no more cells. */
  lemma {:induction false} EvenNext(sz: seq<nat>, usable: nat, leafData: bool, cuts: seq<nat>, notes: seq<nat>, i: nat)
    requires Evening(sz, usable, leafData, cuts, notes, i + 1) && i < |cuts| && notes[i] != 0
    ensures Evening(sz, usable, leafData, cuts, notes, i)
  {
    hide Load, Start;
    assert NoteOk(sz, leafData, cuts, notes, i, Extra(cuts, i)) && PageOk(|sz|, cuts, leafData, i);
    if i == |cuts| - 1 && Start(cuts, leafData, i) == cuts[i] {
      LoadNone(sz, cuts[i]);
    }
  }

  /** The cells at which to take and put, when one moves. */
  lemma {:induction false} EvenIndices(sz: seq<nat>, usable: nat, leafData: bool, cuts: seq<nat>, notes: seq<nat>,
                                       i: nat)
    requires Evening(sz, usable, leafData, cuts, notes, i + 1) && 0 < i < |cuts| == |notes|
    ensures 0 < cuts[i - 1] && cuts[i - 1] - 1 + Gap(leafData) < |sz|
  {
    hide Load;
    assert PageFilled(cuts, leafData, i - 1);
    Shift(sz, leafData, cuts, i);
  }

  // ------------------------------------------------------------ how far from the right

  /** Page `i` wants the last cell of the page before it: it is empty, or with the cell it gets it would be no larger
      than that page without the cell that goes. All but the last page count two bytes more than they hold. */
  ghost predicate Wants(sz: seq<nat>, leafData: bool, cuts: seq<nat>, i: nat) {
    && 0 < i < |cuts| && 0 < cuts[i - 1] <= |sz| && cuts[i] <= |sz| && cuts[i - 1] - 1 + Gap(leafData) < |sz|
    && var r := cuts[i - 1] - 1;
       var right := PageLoad(sz, cuts, leafData, i) + (if i == |cuts| - 1 then 0 else 2);
       right == 0
       || right + sz[r + Gap(leafData)] + 2 <= PageLoad(sz, cuts, leafData, i - 1) + 2 - (sz[r] + 2)
  }

  ghost predicate WantsAt(sz: seq<nat>, leafData: bool, was: seq<nat>, i: nat, c: nat)
    requires 0 < i < |was|
  {
    Wants(sz, leafData, was[i - 1 := c], i)
  }

  /** Page `i` has taken what it wants of the page before it, one cell at a time, and no more. */
  ghost predicate Settled(sz: seq<nat>, leafData: bool, was: seq<nat>, i: nat, c: nat) {
    && 0 < i < |was| && c <= was[i - 1] && !WantsAt(sz, leafData, was, i, c)
    && forall x :: c < x <= was[i - 1] ==> WantsAt(sz, leafData, was, i, x)
  }

  /** From `was` the pages from `i` on have settled, the last one first. */
  ghost predicate Evened(sz: seq<nat>, leafData: bool, was: seq<nat>, now: seq<nat>, i: nat)
    decreases |was| - i
  {
    if i >= |was| then now == was
    else exists mid: seq<nat>, c ::
           Evened(sz, leafData, was, mid, i + 1) && Settled(sz, leafData, mid, i, c) && now == mid[i - 1 := c]
  }

  lemma {:induction false} EvenedOne(sz: seq<nat>, leafData: bool, was: seq<nat>, mid: seq<nat>, i: nat, c: nat)
    requires i < |was| && Evened(sz, leafData, was, mid, i + 1) && Settled(sz, leafData, mid, i, c)
    ensures Evened(sz, leafData, was, mid[i - 1 := c], i)
  {
    hide Settled;
  }

  /** What the loop over a pair of pages tests is whether the right one wants a cell. */
  lemma {:induction false} WantsIs(sz: seq<nat>, usable: nat, leafData: bool, cuts: seq<nat>, notes: seq<nat>, i: nat,
                                   r: nat, d: nat)
    requires Evening(sz, usable, leafData, cuts, notes, i + 1) && 0 < i < |cuts| == |notes|
    requires r + 1 == cuts[i - 1] && d == r + Gap(leafData) && d < |sz|
    ensures Wants(sz, leafData, cuts, i)
            <==> notes[i] == 0 || notes[i] + sz[d] + 2 <= notes[i - 1] as int - (sz[r] + 2)
  {
    hide Load, Start, PageLoad;
    assert NoteOk(sz, leafData, cuts, notes, i - 1, Extra(cuts, i - 1))
           && NoteOk(sz, leafData, cuts, notes, i, Extra(cuts, i));
  }

  lemma {:induction false} SettledAt(sz: seq<nat>, leafData: bool, was: seq<nat>, i: nat, c: nat)
    requires 0 < i < |was| && c <= was[i - 1] && !Wants(sz, leafData, was[i - 1 := c], i)
             && WantsDownTo(sz, leafData, was, i, c)
    ensures Settled(sz, leafData, was, i, c)
  {}

  ghost predicate WantsDownTo(sz: seq<nat>, leafData: bool, was: seq<nat>, i: nat, c: nat)
    requires 0 < i < |was|
  {
    forall x :: c < x <= was[i - 1] ==> WantsAt(sz, leafData, was, i, x)
  }

  lemma {:induction false} NoneWanted(sz: seq<nat>, leafData: bool, was: seq<nat>, i: nat)
    requires 0 < i < |was|
    ensures WantsDownTo(sz, leafData, was, i, was[i - 1]) && was == was[i - 1 := was[i - 1]]
  {}

  lemma {:induction false} WantsMore(sz: seq<nat>, leafData: bool, was: seq<nat>, i: nat, c: nat)
    requires 0 < i < |was| && 0 < c <= was[i - 1] && WantsDownTo(sz, leafData, was, i, c)
             && Wants(sz, leafData, was[i - 1 := c], i)
    ensures WantsDownTo(sz, leafData, was, i, c - 1)
  {
    hide Wants;
  }

  /** Move cells to the right page of each pair while that page is empty or would not outgrow the left. */
  method EvenOut(sz: seq<nat>, usable: nat, leafData: bool, cntNew: array<nat>, szNew: array<nat>, k: nat)
    requires Modest(sz, usable, leafData) && 0 < k <= cntNew.Length == szNew.Length && cntNew != szNew
    requires Evening(sz, usable, leafData, cntNew[..k], szNew[..k], k)
    modifies cntNew, szNew
    ensures Legal(sz, usable, leafData, cntNew[..k])
    ensures sz != [] ==> NonEmpty(cntNew[..k], leafData)
    ensures Evened(sz, leafData, old(cntNew[..k]), cntNew[..k], 1)
  {
    hide Load, Legal, Weighed, Start, PageFilled, Evened, Settled;
    var i := k - 1;
    ghost var was := cntNew[..k];
    NoneEvened(sz, leafData, was);
    while i > 0
      invariant 0 <= i < k && Evening(sz, usable, leafData, cntNew[..k], szNew[..k], i + 1)
      invariant Evened(sz, leafData, was, cntNew[..k], i + 1)
    {
      ghost var mid := cntNew[..k];
      EvenPair(sz, usable, leafData, cntNew, szNew, k, i);
      EvenedOne(sz, leafData, was, mid, i, cntNew[i - 1]);
      i := i - 1;
    }
    LastFilled(sz, usable, leafData, cntNew[..k], szNew[..k]);
  }

  lemma {:induction false} NoneEvened(sz: seq<nat>, leafData: bool, was: seq<nat>)
    ensures Evened(sz, leafData, was, was, |was|)
  {}

  /** Cells move from page `i - 1` to page `i` until that wants no more. */
  method EvenPair(sz: seq<nat>, usable: nat, leafData: bool, cntNew: array<nat>, szNew: array<nat>, k: nat, i: nat)
    requires Modest(sz, usable, leafData) && 0 < i < k <= cntNew.Length == szNew.Length && cntNew != szNew
    requires Evening(sz, usable, leafData, cntNew[..k], szNew[..k], i + 1)
    modifies cntNew, szNew
    ensures Evening(sz, usable, leafData, cntNew[..k], szNew[..k], i)
    ensures cntNew[..k] == old(cntNew[..k])[i - 1 := cntNew[i - 1]]
    ensures Settled(sz, leafData, old(cntNew[..k]), i, cntNew[i - 1])
  {
    hide Load, Legal, Weighed, Start, PageFilled, Evening, Modest, Wants, WantsDownTo, Settled;
    ghost var was := cntNew[..k];
    NoneWanted(sz, leafData, was, i);
    ghost var cuts: seq<nat>, notes: seq<nat> := cntNew[..k], szNew[..k];
    EvenIndices(sz, usable, leafData, cuts, notes, i);
    var szRight: nat, szLeft: nat := szNew[i], szNew[i - 1];
    assert notes == notes[i - 1 := szLeft][i := szRight];
    var r := cntNew[i - 1] - 1;
    var d := r + 1 - (if leafData then 1 else 0);
    while szRight == 0 || szRight + sz[d] + 2 <= szLeft - (sz[r] + 2) as int
      invariant r + 1 == cntNew[i - 1] && 0 <= r && d == r + Gap(leafData) < |sz|
      invariant cuts == cntNew[..k] && |notes| == k && notes == szNew[..k][i - 1 := szLeft][i := szRight]
      invariant Evening(sz, usable, leafData, cuts, notes, i + 1) && szNew[..] == old(szNew[..])
      invariant cntNew[i - 1] <= was[i - 1] && cuts == was[i - 1 := cntNew[i - 1]]
                && WantsDownTo(sz, leafData, was, i, cntNew[i - 1])
      decreases r
    {
      WantsIs(sz, usable, leafData, cuts, notes, i, r, d);
      WantsMore(sz, leafData, was, i, cntNew[i - 1]);
      EvenStep(sz, usable, leafData, cuts, notes, i, r, d);
      szRight := szRight + sz[d] + 2;
      szLeft := szLeft - (sz[r] + 2);
      cntNew[i - 1] := cntNew[i - 1] - 1;
      cuts, notes := cuts[i - 1 := r], notes[i - 1 := szLeft][i := szRight];
      assert cuts == cntNew[..k] && notes == szNew[..k][i - 1 := szLeft][i := szRight];
      EvenIndices(sz, usable, leafData, cuts, notes, i);
      r := cntNew[i - 1] - 1;
      d := r + 1 - (if leafData then 1 else 0);
    }
    WantsIs(sz, usable, leafData, cuts, notes, i, r, d);
    SettledAt(sz, leafData, was, i, cntNew[i - 1]);
    EvenNext(sz, usable, leafData, cuts, notes, i);
    szNew[i] := szRight;
    szNew[i - 1] := szLeft;
    assert szNew[..k] == notes;
  }

  lemma {:induction false} LastFilled(sz: seq<nat>, usable: nat, leafData: bool, cuts: seq<nat>, notes: seq<nat>)
    requires Evening(sz, usable, leafData, cuts, notes, 1)
    ensures Legal(sz, usable, leafData, cuts) && (sz != [] ==> NonEmpty(cuts, leafData))
  {
    hide Load;
  }

  /** The two passes: a division that needs no more pages than any other, with something on every page; each page
      from the last on has settled with the one before it, starting from pages as full as they can be. */
  method Divide(sz: seq<nat>, usable: nat, leafData: bool, ghost other: seq<nat>)
    returns (cuts: seq<nat>, ghost full: seq<nat>)
    requires Modest(sz, usable, leafData) && Legal(sz, usable, leafData, other) && |other| <= NB + 2
    ensures Legal(sz, usable, leafData, cuts) && (sz != [] ==> NonEmpty(cuts, leafData))
    ensures 0 < |cuts| <= |other|
    ensures forall any :: Legal(sz, usable, leafData, any) ==> |cuts| <= |any|
    ensures Legal(sz, usable, leafData, full) && Closed(sz, usable, leafData, full[..|full| - 1])
            && Evened(sz, leafData, full, cuts, 1)
  {
    hide Evened;
    var cntNew, szNew := new nat[NB + 2], new nat[NB + 2];
    var k := Fill(sz, usable, leafData, cntNew, szNew, other);
    assert cntNew[..k][..k - 1] == cntNew[..k - 1];
    EveningStart(sz, usable, leafData, cntNew[..k], szNew[..k]);
    ghost var closed := cntNew[..k - 1];
    forall any | Legal(sz, usable, leafData, any) ensures k <= |any| {
      FewerClosed(sz, usable, leafData, closed, any);
    }
    full := cntNew[..k];
    EvenOut(sz, usable, leafData, cntNew, szNew, k);
    cuts := cntNew[..k];
  }
}
