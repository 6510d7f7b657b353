/** The list of free pages: trunk pages, each with the numbers of leaf pages. Pages are their
    four-byte words. */
module Freelist {
  import BtreeCell
  import opened VacuumSize

  type Pgno = nat

  // ------------------------------------------------------------ trunks

  /** The words of a trunk: the next trunk, the number of leaves, and the leaves. */
  ghost predicate TrunkOk(w: seq<nat>, max: nat) { |w| >= max + 2 && w[1] <= max }

  ghost function Leaves(w: seq<nat>, max: nat): (r: seq<Pgno>)
    requires |w| >= max + 2 && w[1] <= max
    ensures |r| == w[1] && forall j :: 0 <= j < |r| ==> r[j] == w[2 + j]
  {
    w[2..2 + w[1]]
  }

  ghost function TrunkBag(pages: map<Pgno, seq<nat>>, t: Pgno, max: nat): multiset<Pgno>
    requires t in pages && |pages[t]| >= max + 2 && pages[t][1] <= max
  {
    multiset{t} + multiset(Leaves(pages[t], max))
  }

  ghost predicate TrunksOk(pages: map<Pgno, seq<nat>>, trunks: seq<Pgno>, max: nat) {
    forall i :: 0 <= i < |trunks| ==> trunks[i] in pages && TrunkOk(pages[trunks[i]], max)
  }

  /** All pages on the list. */
  ghost function Bag(pages: map<Pgno, seq<nat>>, trunks: seq<Pgno>, max: nat): multiset<Pgno>
    requires TrunksOk(pages, trunks, max)
  {
    if trunks == [] then multiset{} else Bag(pages, trunks[..|trunks| - 1], max)
                                         + TrunkBag(pages, trunks[|trunks| - 1], max)
  }

  /** What follows the `i`-th trunk. */
  ghost function Follower(trunks: seq<Pgno>, i: int): Pgno { if 0 <= i + 1 < |trunks| then trunks[i + 1] else 0 }

  ghost predicate LinkedAt(pages: map<Pgno, seq<nat>>, trunks: seq<Pgno>, i: nat)
    requires i < |trunks|
  {
    trunks[i] in pages && |pages[trunks[i]]| > 0 && pages[trunks[i]][0] == Follower(trunks, i)
  }

  ghost predicate Chained(pages: map<Pgno, seq<nat>>, first: Pgno, trunks: seq<Pgno>) {
    first == Follower(trunks, -1) && forall i :: 0 <= i < |trunks| ==> LinkedAt(pages, trunks, i)
  }

  /** No page is on the list twice; no page has number 0. */
  ghost predicate Single(bag: multiset<Pgno>) {
    bag[0] == 0 && forall x :: bag[x] <= 1
  }

  ghost predicate ListOk(pages: map<Pgno, seq<nat>>, first: Pgno, count: nat, trunks: seq<Pgno>, max: nat) {
    && TrunksOk(pages, trunks, max) && Chained(pages, first, trunks)
    && Single(Bag(pages, trunks, max)) && |Bag(pages, trunks, max)| == count
    && forall x :: x in Bag(pages, trunks, max) ==> x in pages && |pages[x]| >= max + 2
  }

  // ------------------------------------------------------------ bags

  lemma {:induction false} BagSame(pages: map<Pgno, seq<nat>>, pages': map<Pgno, seq<nat>>, trunks: seq<Pgno>, max: nat)
    requires TrunksOk(pages, trunks, max) && forall i :: 0 <= i < |trunks|
                                                         ==> trunks[i] in pages' && pages'[trunks[i]]
                                                             == pages[trunks[i]]
    ensures TrunksOk(pages', trunks, max) && Bag(pages', trunks, max) == Bag(pages, trunks, max)
  {
    if trunks != [] {
      BagSame(pages, pages', trunks[..|trunks| - 1], max);
    }
  }

  lemma {:induction false} BagAppend(pages: map<Pgno, seq<nat>>, a: seq<Pgno>, b: seq<Pgno>, max: nat)
    requires TrunksOk(pages, a, max) && TrunksOk(pages, b, max)
    ensures TrunksOk(pages, a + b, max) && Bag(pages, a + b, max) == Bag(pages, a, max) + Bag(pages, b, max)
  {
    hide TrunkBag, TrunkOk;
    if b == [] {
      assert a + b == a;
    } else {
      var n := |b| - 1;
      BagAppend(pages, a, b[..n], max);
      assert (a + b)[..|a| + n] == a + b[..n];
    }
  }

  lemma {:induction false} BagOne(pages: map<Pgno, seq<nat>>, t: Pgno, max: nat)
    requires t in pages && TrunkOk(pages[t], max)
    ensures TrunksOk(pages, [t], max) && Bag(pages, [t], max) == TrunkBag(pages, t, max)
  {
    assert [t][..0] == [];
  }

  /** One trunk and the others. */
  lemma {:induction false} BagAround(pages: map<Pgno, seq<nat>>, trunks: seq<Pgno>, i: nat, max: nat)
    requires TrunksOk(pages, trunks, max) && i < |trunks|
    ensures TrunksOk(pages, trunks[..i], max) && TrunksOk(pages, trunks[i + 1..], max)
    ensures Bag(pages, trunks, max) == Bag(pages, trunks[..i], max) + TrunkBag(pages, trunks[i], max)
            + Bag(pages, trunks[i + 1..], max)
  {
    hide TrunkBag, TrunkOk, Bag;
    BagOne(pages, trunks[i], max);
    BagAppend(pages, trunks[..i], [trunks[i]], max);
    BagAppend(pages, trunks[..i] + [trunks[i]], trunks[i + 1..], max);
    assert trunks == trunks[..i] + [trunks[i]] + trunks[i + 1..];
  }

  lemma {:induction false} TrunkInBag(pages: map<Pgno, seq<nat>>, trunks: seq<Pgno>, i: nat, max: nat)
    requires TrunksOk(pages, trunks, max) && i < |trunks|
    ensures trunks[i] in Bag(pages, trunks, max)
    ensures forall x :: x in Leaves(pages[trunks[i]], max) ==> x in Bag(pages, trunks, max)
  {
    BagAround(pages, trunks, i, max);
  }

  /** Different places on the list hold different trunks. */
  lemma {:induction false} TrunksDiffer(pages: map<Pgno, seq<nat>>, trunks: seq<Pgno>, i: nat, j: nat, max: nat)
    requires TrunksOk(pages, trunks, max) && Single(Bag(pages, trunks, max)) && i < |trunks| && j < |trunks| && i != j
    ensures trunks[i] != trunks[j] && trunks[j] !in Leaves(pages[trunks[i]], max)
  {
    hide Bag, TrunkBag, Leaves;
    BagAround(pages, trunks, i, max);
    TrunkHas(pages, trunks[i], max);
    var t := trunks[j];
    if j < i {
      TrunkInBag(pages, trunks[..i], j, max);
    } else {
      TrunkInBag(pages, trunks[i + 1..], j - i - 1, max);
    }
    assert Bag(pages, trunks, max)[t] <= 1;
    assert TrunkBag(pages, trunks[i], max)[t] == 0;
  }

  lemma {:induction false} TrunkHas(pages: map<Pgno, seq<nat>>, t: Pgno, max: nat)
    requires t in pages && TrunkOk(pages[t], max)
    ensures t in TrunkBag(pages, t, max) && forall x :: x in Leaves(pages[t], max) ==> x in TrunkBag(pages, t, max)
  {}

  // ------------------------------------------------------------ one trunk changed

  /** Writing one trunk, whose pages become `bag`, leaves the others. */
  lemma {:induction false} TrunkWritten(pages: map<Pgno, seq<nat>>, first: Pgno, count: nat, trunks: seq<Pgno>,
                                        max: nat, i: nat, w: seq<nat>)
    requires ListOk(pages, first, count, trunks, max) && i < |trunks| && TrunkOk(w, max) && w[0] == pages[trunks[i]][0]
    ensures var pages' := pages[trunks[i] := w];
            && TrunksOk(pages', trunks, max) && Chained(pages', first, trunks)
            && Bag(pages', trunks, max) == Bag(pages, trunks, max) - TrunkBag(pages, trunks[i], max)
               + TrunkBag(pages', trunks[i], max)
  {
    hide Bag, TrunkBag, Leaves;
    var pages' := pages[trunks[i] := w];
    BagAround(pages, trunks, i, max);
    forall j | 0 <= j < |trunks| && j != i ensures trunks[j] != trunks[i] {
      TrunksDiffer(pages, trunks, i, j, max);
    }
    BagSame(pages, pages', trunks[..i], max);
    BagSame(pages, pages', trunks[i + 1..], max);
    forall j | 0 <= j < |trunks| ensures trunks[j] in pages' && TrunkOk(pages'[trunks[j]], max)
        && LinkedAt(pages', trunks, j) {
      assert LinkedAt(pages, trunks, j);
    }
    BagAround(pages', trunks, i, max);
  }

  /** Leaf `c` taken out: the last leaf moves into its place. */
  function WithoutLeaf(w: seq<nat>, c: nat): seq<nat>
    requires |w| >= 2 && c < w[1] && w[1] + 2 <= |w|
  {
    (if c < w[1] - 1 then w[2 + c := w[1 + w[1]]] else w)[1 := w[1] - 1]
  }

  lemma {:induction false} LeavesWithout(w: seq<nat>, max: nat, c: nat)
    requires TrunkOk(w, max) && c < w[1]
    ensures TrunkOk(WithoutLeaf(w, c), max)
    ensures multiset(Leaves(WithoutLeaf(w, c), max)) == multiset(Leaves(w, max)) - multiset{w[2 + c]}
            && w[2 + c] in Leaves(w, max)
  {
    var ls, k := Leaves(w, max), w[1];
    var front, last := ls[..k - 1], ls[k - 1];
    assert ls == front + [last];
    assert w[2 + c] == ls[c];
    var less := Leaves(WithoutLeaf(w, c), max);
    if c < k - 1 {
      assert less == front[c := last];
      Swapped(front, c, last);
    } else {
      assert less == front;
    }
  }

  lemma {:induction false} Swapped(front: seq<Pgno>, c: nat, last: Pgno)
    requires c < |front|
    ensures multiset(front[c := last]) == multiset(front + [last]) - multiset{front[c]}
  {
    assert multiset(front[c := last]) == multiset(front) - multiset{front[c]} + multiset{last};
    assert front[c] in multiset(front);
  }

  /** A leaf added at the end. */
  ghost function WithLeaf(w: seq<nat>, p: Pgno): seq<nat>
    requires |w| >= 2 && w[1] + 2 < |w|
  {
    w[1 := w[1] + 1][2 + w[1] := p]
  }

  lemma {:induction false} LeavesWith(w: seq<nat>, max: nat, p: Pgno)
    requires TrunkOk(w, max) && w[1] < max
    ensures TrunkOk(WithLeaf(w, p), max)
    ensures multiset(Leaves(WithLeaf(w, p), max)) == multiset(Leaves(w, max)) + multiset{p}
  {
    assert Leaves(WithLeaf(w, p), max) == Leaves(w, max) + [p];
  }

  /** A page made a trunk: only its first two words are written. */
  function EmptyTrunk(w: seq<nat>, next: Pgno): (r: seq<nat>)
    requires |w| >= 2
    ensures |r| == |w| && r[0] == next && r[1] == 0 && forall x :: 2 <= x < |w| ==> r[x] == w[x]
  {
    w[0 := next][1 := 0]
  }

  /** The first trunk can take another leaf. */
  ghost predicate HasRoom(pages: map<Pgno, seq<nat>>, first: Pgno, max: nat) {
    first in pages && TrunkOk(pages[first], max) && pages[first][1] < max
  }

  // ------------------------------------------------------------ trunks put in and taken out

  /** A trunk with no leaves in front. */
  lemma {:induction false} NewTrunk(pages: map<Pgno, seq<nat>>, first: Pgno, trunks: seq<Pgno>, max: nat, p: Pgno,
                                    w: seq<nat>)
    requires TrunksOk(pages, trunks, max) && Chained(pages, first, trunks) && p !in Bag(pages, trunks, max)
    requires TrunkOk(w, max) && w[0] == first && w[1] == 0
    ensures var pages' := pages[p := w];
            && TrunksOk(pages', [p] + trunks, max) && Chained(pages', p, [p] + trunks)
            && Bag(pages', [p] + trunks, max) == Bag(pages, trunks, max) + multiset{p}
  {
    hide Bag, TrunkBag, Leaves;
    var pages', more := pages[p := w], [p] + trunks;
    forall j | 0 <= j < |trunks| ensures trunks[j] != p {
      TrunkInBag(pages, trunks, j, max);
    }
    BagSame(pages, pages', trunks, max);
    BagOne(pages', p, max);
    BagAppend(pages', [p], trunks, max);
    NoLeaves(pages', p, max);
    forall j | 0 <= j < |more| ensures LinkedAt(pages', more, j) {
      if j > 0 {
        assert LinkedAt(pages, trunks, j - 1) && more[j] == trunks[j - 1];
      }
    }
  }

  lemma {:induction false} NoLeaves(pages: map<Pgno, seq<nat>>, t: Pgno, max: nat)
    requires t in pages && TrunkOk(pages[t], max) && pages[t][1] == 0
    ensures TrunkBag(pages, t, max) == multiset{t}
  {
    assert Leaves(pages[t], max) == [];
  }

  ghost function Spliced(trunks: seq<Pgno>, i: nat, mid: seq<Pgno>): seq<Pgno>
    requires i < |trunks|
  {
    trunks[..i] + mid + trunks[i + 1..]
  }

  /** Make the trunk before the `i`-th, or the header, lead to page `t`. */
  ghost function Relinked(pages: map<Pgno, seq<nat>>, trunks: seq<Pgno>, i: nat, t: Pgno): map<Pgno, seq<nat>>
    requires i <= |trunks|
    requires i > 0 ==> trunks[i - 1] in pages && |pages[trunks[i - 1]]| > 0
  {
    if i == 0 then pages
    else
      var w: seq<nat> := pages[trunks[i - 1]][0 := t];
      pages[trunks[i - 1] := w]
  }

  /** The pages of trunks do not change when links do. */
  lemma {:induction false} RelinkedBag(pages: map<Pgno, seq<nat>>, trunks: seq<Pgno>, max: nat, i: nat, t: Pgno,
                                       some: seq<Pgno>)
    requires i <= |trunks| && (i > 0 ==> trunks[i - 1] in pages && TrunkOk(pages[trunks[i - 1]], max))
             && TrunksOk(pages, some, max)
    ensures var pages' := Relinked(pages, trunks, i, t);
            TrunksOk(pages', some, max) && Bag(pages', some, max) == Bag(pages, some, max)
  {
    hide TrunkBag, Leaves, Relinked, TrunkOk;
    if some != [] {
      RelinkedBag(pages, trunks, max, i, t, some[..|some| - 1]);
      RelinkedTrunk(pages, trunks, max, i, t, some[|some| - 1]);
    }
  }

  lemma {:induction false} RelinkedTrunk(pages: map<Pgno, seq<nat>>, trunks: seq<Pgno>, max: nat, i: nat, t: Pgno,
                                         s: Pgno)
    requires i <= |trunks| && (i > 0 ==> trunks[i - 1] in pages && TrunkOk(pages[trunks[i - 1]], max)) && s in pages
             && TrunkOk(pages[s], max)
    ensures var pages' := Relinked(pages, trunks, i, t);
            s in pages' && TrunkOk(pages'[s], max) && TrunkBag(pages', s, max) == TrunkBag(pages, s, max)
  {
    hide Leaves;
    SameLeaves(pages[s], Relinked(pages, trunks, i, t)[s], max);
  }

  lemma {:induction false} SameLeaves(w: seq<nat>, w': seq<nat>, max: nat)
    requires TrunkOk(w, max) && |w'| == |w| && w'[1..] == w[1..]
    ensures TrunkOk(w', max) && Leaves(w', max) == Leaves(w, max)
  {
    assert forall j :: 1 <= j < |w| ==> w'[j] == w'[1..][j - 1] && w[j] == w[1..][j - 1];
  }

  /** Replacing the `i`-th trunk by others, linked on to the same follower, replaces its pages. */
  lemma {:induction false} TrunkReplaced(pages: map<Pgno, seq<nat>>, first: Pgno, count: nat, trunks: seq<Pgno>,
                                         max: nat, i: nat, pages1: map<Pgno, seq<nat>>, mid: seq<Pgno>)
    requires ListOk(pages, first, count, trunks, max) && i < |trunks| && |mid| <= 1 && TrunksOk(pages1, mid, max)
    requires mid != [] ==> pages1[mid[0]][0] == Follower(trunks, i)
    requires forall j :: 0 <= j < |trunks| && j != i
                         ==> trunks[j] in pages1 && pages1[trunks[j]] == pages[trunks[j]] && trunks[j] !in mid
    ensures var t := if mid != [] then mid[0] else Follower(trunks, i);
            var pages', more := Relinked(pages1, trunks, i, t), Spliced(trunks, i, mid);
            && TrunksOk(pages', more, max) && Chained(pages', if i == 0 then t else first, more)
            && Bag(pages', more, max) == Bag(pages, trunks, max) - TrunkBag(pages, trunks[i], max)
               + Bag(pages1, mid, max)
  {
    hide Bag, TrunkBag, Leaves;
    var t := if mid != [] then mid[0] else Follower(trunks, i);
    var a, b := trunks[..i], trunks[i + 1..];
    BagAround(pages, trunks, i, max);
    BagSame(pages, pages1, a, max);
    BagSame(pages, pages1, b, max);
    var pages' := Relinked(pages1, trunks, i, t);
    RelinkedBag(pages1, trunks, max, i, t, a);
    RelinkedBag(pages1, trunks, max, i, t, b);
    RelinkedBag(pages1, trunks, max, i, t, mid);
    BagAppend(pages', a, mid, max);
    BagAppend(pages', a + mid, b, max);
    ReplacedLinks(pages, first, count, trunks, max, i, pages1, mid);
  }

  lemma {:induction false} ReplacedLinks(pages: map<Pgno, seq<nat>>, first: Pgno, count: nat, trunks: seq<Pgno>,
                                         max: nat, i: nat, pages1: map<Pgno, seq<nat>>, mid: seq<Pgno>)
    requires ListOk(pages, first, count, trunks, max) && i < |trunks| && |mid| <= 1 && TrunksOk(pages1, mid, max)
    requires mid != [] ==> pages1[mid[0]][0] == Follower(trunks, i)
    requires forall j :: 0 <= j < |trunks| && j != i
                         ==> trunks[j] in pages1 && pages1[trunks[j]] == pages[trunks[j]] && trunks[j] !in mid
    ensures var t := if mid != [] then mid[0] else Follower(trunks, i);
            Chained(Relinked(pages1, trunks, i, t), if i == 0 then t else first, Spliced(trunks, i, mid))
  {
    hide Bag, TrunkBag, Leaves;
    var t := if mid != [] then mid[0] else Follower(trunks, i);
    var pages', more, m := Relinked(pages1, trunks, i, t), Spliced(trunks, i, mid), |mid|;
    forall j | 0 <= j < |more| ensures LinkedAt(pages', more, j) {
      if j < i {
        assert LinkedAt(pages, trunks, j) && more[j] == trunks[j];
        if j < i - 1 {
          TrunksDiffer(pages, trunks, j, i - 1, max);
        }
      } else if j >= i + m {
        assert LinkedAt(pages, trunks, j - m + 1) && more[j] == trunks[j - m + 1];
        if i > 0 {
          TrunksDiffer(pages, trunks, j - m + 1, i - 1, max);
        }
      }
    }
  }

  // ------------------------------------------------------------ the list in the file

  function Distance(a: nat, b: nat): nat { if a >= b then a - b else b - a }

  /** Leaf `c` is the first if no page is wanted nearby; else there is no leaf closer to that page, and none as close
      before it. */
  ghost predicate Nearest(w: seq<nat>, nearby: Pgno, c: nat)
    requires |w| >= 2 && w[1] + 2 <= |w| && c < w[1]
  {
    if nearby == 0 then c == 0
    else
      var x := w[2 + c];
      var d := if x >= nearby then x - nearby else nearby - x;
      forall j :: 2 <= j < w[1] + 2 ==> && (w[j] <= nearby - d || w[j] >= nearby + d)
                                        && (j < 2 + c ==> w[j] != nearby - d && w[j] != nearby + d)
  }

  /** A leafless trunk is passed whose first word after the count, of no meaning, is the page looked for. */
  ghost predicate StaleAt(pages: map<Pgno, seq<nat>>, trunks: seq<Pgno>, nearby: Pgno, i: nat)
    requires i < |trunks| && trunks[i] in pages && |pages[trunks[i]]| >= 3
  {
    pages[trunks[i]][1] == 0 && pages[trunks[i]][2] == nearby && trunks[i] != nearby
  }

  /** The page looked for is the `i`-th trunk or one of its leaves. */
  ghost predicate HeldAt(pages: map<Pgno, seq<nat>>, trunks: seq<Pgno>, max: nat, nearby: Pgno, i: nat)
    requires TrunksOk(pages, trunks, max) && i < |trunks|
  {
    trunks[i] == nearby || nearby in Leaves(pages[trunks[i]], max)
  }

  /** A search for a page comes across such a stale word before the page itself. */
  ghost predicate Misled(pages: map<Pgno, seq<nat>>, trunks: seq<Pgno>, max: nat, nearby: Pgno)
    requires TrunksOk(pages, trunks, max) && max >= 1
  {
    exists i :: 0 <= i < |trunks| && StaleAt(pages, trunks, nearby, i)
                && forall j :: 0 <= j <= i ==> !HeldAt(pages, trunks, max, nearby, j)
  }

  class FreeList {
    /** Leaves a trunk can have: a quarter of the usable size, less eight. */
    const max: nat
    var first: Pgno
    var count: nat
    var pages: map<Pgno, seq<nat>>
    var pageCount: nat

    ghost var trunks: seq<Pgno>

    ghost predicate Valid()
      reads this
    {
      1 <= max < BtreeCell.TWO32 - 1 && ListOk(pages, first, count, trunks, max)
    }

    /** The free pages. */
    ghost function Free(): multiset<Pgno>
      requires TrunksOk(pages, trunks, max)
      reads this
    {
      Bag(pages, trunks, max)
    }

    constructor (max: nat, pages: map<Pgno, seq<nat>>, pageCount: nat)
      requires 1 <= max < BtreeCell.TWO32 - 1
      ensures Valid() && Free() == multiset{} && trunks == [] && count == first == 0 && this.pages == pages
              && this.pageCount == pageCount && this.max == max
    {
      this.max, this.pages, this.pageCount := max, pages, pageCount;
      first, count, trunks := 0, 0, [];
    }

    /** Put a page on the list: as a leaf of the first trunk, or as a new trunk. */
    method FreePage(p: Pgno)
      requires Valid() && p != 0 && p in pages && |pages[p]| >= max + 2 && p !in Free()
      modifies this`first, this`count, this`pages, this`trunks
      ensures Valid() && Free() == old(Free()) + multiset{p} && count == old(count) + 1
      ensures pages.Keys == old(pages.Keys)
      ensures if old(count > 0 && HasRoom(pages, first, max)) then
                first == old(first) && trunks == old(trunks) && pages
                    == old(pages)[first := WithLeaf(old(pages)[first], p)]
              else
                first == p && trunks == [p] + old(trunks) && pages
                    == old(pages)[p := EmptyTrunk(old(pages)[p], old(first))]
    {
      hide ListOk, Bag, TrunkBag, Leaves, TrunksOk;
      ListFacts(pages, first, count, trunks, max);
      var n := count;
      if n == 0 {
        EmptyList(pages, first, trunks, max);
        var w := EmptyTrunk(pages[p], 0);
        AddTrunk(p, w);
      } else {
        SomeTrunk(pages, first, trunks, max);
        var k := pages[first][1];
        if k >= max {
          var w := EmptyTrunk(pages[p], first);
          AddTrunk(p, w);
        } else {
          AddLeaf(p, k);
        }
      }
    }

    method AddTrunk(p: Pgno, w: seq<nat>)
      requires Valid() && p != 0 && p in pages && p !in Free() && TrunkOk(w, max) && w[0] == first && w[1] == 0
      modifies this`first, this`count, this`pages, this`trunks
      ensures Valid() && Free() == old(Free()) + multiset{p} && count == old(count) + 1 && pages.Keys == old(pages.Keys)
      ensures first == p && trunks == [p] + old(trunks) && pages == old(pages)[p := w]
    {
      hide Bag, TrunkBag, Leaves;
      NewTrunk(pages, first, trunks, max, p, w);
      count := count + 1;
      pages := pages[p := w];
      first, trunks := p, [p] + trunks;
    }

    method AddLeaf(p: Pgno, k: nat)
      requires Valid() && p != 0 && p in pages && |pages[p]| >= max + 2 && p !in Free() && trunks != []
               && first == trunks[0]
      requires first in pages && TrunkOk(pages[first], max) && k == pages[first][1] < max
      modifies this`count, this`pages
      ensures Valid() && Free() == old(Free()) + multiset{p} && count == old(count) + 1 && pages.Keys == old(pages.Keys)
      ensures pages == old(pages)[first := WithLeaf(old(pages)[first], p)]
    {
      hide Bag, TrunkBag, Leaves;
      var w: seq<nat> := pages[first][1 := k + 1][2 + k := p];
      assert w == WithLeaf(pages[first], p);
      LeavesWith(pages[first], max, p);
      TrunkWritten(pages, first, count, trunks, max, 0, w);
      BagOf(pages, first, max);
      BagOf(pages[first := w], first, max);
      TrunkCounted(pages, trunks, 0, max);
      count := count + 1;
      pages := pages[first := w];
    }

    /** The leaf whose number is closest to the wanted one, or the first. */
    method ClosestLeaf(w: seq<nat>, nearby: Pgno) returns (closest: nat)
      requires TrunkOk(w, max) && max >= 1
      ensures closest < w[1] || (closest == 0 == w[1])
      ensures w[1] > 0 ==> Nearest(w, nearby, closest)
    {
      var k := w[1];
      closest := 0;
      if nearby > 0 {
        var dist, i := Distance(w[2], nearby), 1;
        while i < k
          invariant 1 <= i && (i <= k || k == 0) && (closest < k || closest == 0 == k)
                    && dist == Distance(w[2 + closest], nearby)
          invariant forall j :: 2 <= j < i + 2 && j < k + 2 ==> dist <= Distance(w[j], nearby)
          invariant forall j :: 2 <= j < closest + 2 ==> dist < Distance(w[j], nearby)
        {
          var d2 := Distance(w[2 + i], nearby);
          if d2 < dist {
            closest, dist := i, d2;
          }
          i := i + 1;
        }
      }
    }

    /** The last leaf has taken the place of the one handed out. */
    ghost predicate LeafGone(w: seq<nat>, v: seq<nat>, closest: nat) {
      && |v| == |w| && |w| >= 2 && closest < w[1] && w[1] + 1 < |w| && v[1] == w[1] - 1
      && v[2 + closest] == (if closest == w[1] - 1 then w[2 + closest] else w[1 + w[1]])
      && forall x :: 0 <= x < |w| && x != 1 && x != 2 + closest ==> v[x] == w[x]
    }

    /** Hand out a leaf. */
    method TakeLeaf(iTrunk: Pgno, closest: nat, ghost i: nat) returns (pgno: Pgno)
      requires Valid() && i < |trunks| && iTrunk == trunks[i] && closest < pages[iTrunk][1]
      modifies this`count, this`pages
      ensures Valid() && pgno == old(pages)[iTrunk][2 + closest] && pgno in old(Free())
              && Free() == old(Free()) - multiset{pgno}
      ensures count == old(count) - 1 && pages.Keys == old(pages.Keys)
      ensures first == old(first) && trunks == old(trunks) && pages - {iTrunk} == old(pages) - {iTrunk}
      ensures LeafGone(old(pages)[iTrunk], pages[iTrunk], closest)
    {
      hide Bag, TrunkBag, Leaves;
      var w := pages[iTrunk];
      pgno := w[2 + closest];
      var less: seq<nat> := WithoutLeaf(w, closest);
      LeafTaken(pages, first, count, trunks, max, i, closest);
      count := count - 1;
      pages := pages[iTrunk := less];
    }

    /** The first leaf of a trunk is a trunk in its place: what comes next is the same, and so are the other leaves, in
        their order. */
    ghost predicate Heir(w: seq<nat>, v: seq<nat>) {
      && |w| >= 3 && 1 <= w[1] && w[1] + 2 <= |w| && w[1] + 1 <= |v| && v[0] == w[0] && v[1] == w[1] - 1
      && v[2..w[1] + 1] == w[3..w[1] + 2]
    }

    /** Hand out a trunk: one without leaves leaves the list, else its first leaf takes its place. */
    method TakeTrunk(iTrunk: Pgno, prev: Pgno, ghost i: nat)
      requires Valid() && i < |trunks| && iTrunk == trunks[i] && prev == if i == 0 then 0 else trunks[i - 1]
      modifies this`first, this`count, this`pages, this`trunks
      ensures Valid() && iTrunk in old(Free()) && Free() == old(Free()) - multiset{iTrunk}
      ensures count == old(count) - 1 && pages.Keys == old(pages.Keys)
      ensures var w := old(pages)[iTrunk];
              && |w| >= 3
              && trunks == Spliced(old(trunks), i, if w[1] == 0 then [] else [w[2]])
              && (w[1] > 0 ==> w[2] in pages && Heir(w, pages[w[2]]))
    {
      hide Bag, TrunkBag, Leaves, ListOk, TrunksOk, Chained, Single;
      ListFacts(pages, first, count, trunks, max);
      ghost var pages0, first0 := pages, first;
      TrunkFacts(pages, first, count, trunks, max, i);
      if i > 0 {
        TrunkFacts(pages, first, count, trunks, max, i - 1);
        TrunksDiffer(pages, trunks, i, i - 1, max);
      }
      var w := pages[iTrunk];
      var k, t := w[1], w[0];
      ghost var mid: seq<Pgno> := [];
      if k > 0 {
        t := w[2];
        var n: seq<nat> := [w[0], k - 1] + w[3..2 + k] + pages[t][1 + k..];
        assert n[..1 + k] == [w[0], k - 1] + w[3..2 + k];
        Promoted(pages, first, count, trunks, max, i, n);
        pages := pages[t := n];
        mid := [t];
      } else {
        Unlinked(pages, first, count, trunks, max, i);
      }
      TakenTrunk(pages0, first0, count, trunks, max, i, pages, mid);
      if prev == 0 {
        first := t;
      } else {
        var w': seq<nat> := pages[prev][0 := t];
        pages := pages[prev := w'];
      }
      count := count - 1;
      trunks := Spliced(trunks, i, mid);
    }

    /** One trunk of the list: hand out the trunk or one of its leaves, or pass it by. */
    method Visit(iTrunk: Pgno, prev: Pgno, nearby: Pgno, searchList: bool, ghost i: nat)
      returns (taken: bool, pgno: Pgno)
      requires Valid() && i < |trunks| && iTrunk == trunks[i] && prev == if i == 0 then 0 else trunks[i - 1]
      requires if searchList then nearby > 0 else i == 0
      modifies this`first, this`count, this`pages, this`trunks
      ensures pages.Keys == old(pages.Keys)
      ensures !taken ==> searchList && unchanged(this) && !HeldAt(pages, trunks, max, nearby, i)
                         && !StaleAt(pages, trunks, nearby, i)
      ensures taken ==> count == old(count) - 1 && (searchList ==> pgno == nearby)
      ensures taken && searchList ==> HeldAt(old(pages), old(trunks), max, nearby, i)
                                      || old(StaleAt(pages, trunks, nearby, i))
      ensures taken ==> if searchList && old(StaleAt(pages, trunks, nearby, i)) then !Valid() else
                          Valid() && pgno in old(Free()) && Free() == old(Free()) - multiset{pgno}
      ensures !searchList ==> taken && FirstChoice(old(pages)[iTrunk], max, iTrunk, nearby, pgno)
    {
      hide Bag, TrunkBag, Leaves, ListOk, TrunksOk, Chained, Single;
      ListFacts(pages, first, count, trunks, max);
      TrunkFacts(pages, first, count, trunks, max, i);
      var k := pages[iTrunk][1];
      if k == 0 && !searchList {
        TakeTrunk(iTrunk, prev, i);
        taken, pgno := true, iTrunk;
      } else if searchList && nearby == iTrunk {
        TakeTrunk(iTrunk, prev, i);
        taken, pgno := true, iTrunk;
      } else {
        var closest := ClosestLeaf(pages[iTrunk], nearby);
        var iPage := pages[iTrunk][2 + closest];
        NearestIsIt(pages[iTrunk], max, iTrunk, closest, nearby);
        taken, pgno := !searchList || iPage == nearby, iPage;
        if taken {
          if k > 0 {
            pgno := TakeLeaf(iTrunk, closest, i);
          } else {
            MisreadTrunk(iTrunk, i);
          }
        }
      }
    }

    /** A trunk without leaves, taken to have one: its count becomes the largest number there is. */
    method MisreadTrunk(iTrunk: Pgno, ghost i: nat)
      requires Valid() && i < |trunks| && iTrunk == trunks[i] && pages[iTrunk][1] == 0
      modifies this`count, this`pages
      ensures !Valid() && count == old(count) - 1 && pages.Keys == old(pages.Keys)
      ensures pages == old(pages)[iTrunk := old(pages)[iTrunk][1 := 0xffff_ffff]]
    {
      hide Bag, TrunkBag, Leaves;
      TrunkCounted(pages, trunks, i, max);
      TrunkHas(pages, iTrunk, max);
      var w: seq<nat> := pages[iTrunk][1 := BtreeCell.TWO32 - 1];
      count := count - 1;
      pages := pages[iTrunk := w];
      assert !TrunkOk(pages[trunks[i]], max);
    }

    /** Look through the trunks, one unless a page is searched for. */
    method TakeFromList(nearby: Pgno, search: bool) returns (pgno: Pgno)
      requires Valid() && count > 0 && (search ==> nearby > 0 && nearby in Free())
      modifies this`first, this`count, this`pages, this`trunks
      ensures pages.Keys == old(pages.Keys) && count == old(count) - 1
      ensures search ==> pgno == nearby && (Valid() <==> !old(Misled(pages, trunks, max, nearby)))
      ensures !search ==> Valid() && old(first in pages && TrunkOk(pages[first], max))
                          && FirstChoice(old(pages[first]), max, old(first), nearby, pgno)
      ensures Valid() ==> pgno in old(Free()) && Free() == old(Free()) - multiset{pgno}
    {
      hide Bag, TrunkBag, Leaves, ListOk, TrunksOk, Chained, Single, HeldAt, StaleAt, FirstChoice;
      ListFacts(pages, first, count, trunks, max);
      SomeTrunk(pages, first, trunks, max);
      ghost var h := 0;
      if search {
        h := HeldSomewhere(pages, trunks, max, nearby);
      }
      var prev, iTrunk, taken := 0, first, false;
      pgno := 0;
      ghost var i := 0;
      while !taken
        invariant !taken ==> unchanged(this) && i < |trunks| && iTrunk == trunks[i]
                             && prev == if i == 0 then 0 else trunks[i - 1]
        invariant !taken ==> if search then i <= h < |trunks| && Passed(pages, trunks, max, nearby, i) else i == 0
        invariant pages.Keys == old(pages.Keys)
        invariant taken ==> count == old(count) - 1
        invariant taken && search ==> pgno == nearby && (Valid() <==> !Misled(old(pages), old(trunks), max, nearby))
        invariant taken && !search ==> Valid() && FirstChoice(old(pages)[old(first)], max, old(first), nearby, pgno)
        invariant taken && Valid() ==> TrunksOk(pages, trunks, max) && pgno in old(Free())
                                       && Free() == old(Free()) - multiset{pgno}
        decreases if taken then 0 else 1 + h - i
      {
        TrunkFacts(pages, first, count, trunks, max, i);
        if search {
          Meets(pages, trunks, max, nearby, i, h);
        }
        taken, pgno := Visit(iTrunk, prev, nearby, search, i);
        if !taken {
          prev, iTrunk := iTrunk, pages[iTrunk][0];
          i := i + 1;
        } else if Valid() {
          ListFacts(pages, first, count, trunks, max);
        }
      }
    }

    /** A page off the end of the file: the next, or the one after it where the next is a map page. */
    method TakeFromEnd(autoVacuum: bool, layout: Layout) returns (pgno: Pgno)
      requires Valid() && count == 0 && layout.Valid()
      modifies this`pageCount
      ensures pgno > old(pageCount) && pageCount == pgno
      ensures !autoVacuum ==> pgno != layout.pending
                              && (pgno == old(pageCount) + 1
                                  || (pgno == old(pageCount) + 2 && layout.pending == old(pageCount) + 1))
      ensures autoVacuum ==> forall q :: old(pageCount) < q < pgno ==> !layout.IsData(q)
      ensures autoVacuum ==> (layout.IsData(pgno)
                              <==> !(old(pageCount) + 2 == layout.pending && layout.IsMap(layout.pending - 1)))
    {
      pgno := PagerCount(pageCount, layout) + 1;
      if autoVacuum {
        EndPages(layout, pgno);
        if layout.IsMap(pgno) {
          pgno := pgno + 1;
        }
      }
      pageCount := pgno;
    }

    /** allocatePage: a page of the list while there is one, else one off the end of the file. */
    method AllocatePage(nearby: Pgno, exact: bool, mapSaysFree: bool, autoVacuum: bool, layout: Layout)
      returns (pgno: Pgno)
      requires Valid() && layout.Valid()
      requires exact ==> autoVacuum && nearby > 0 && (mapSaysFree <==> nearby in Free())
      modifies this`first, this`count, this`pages, this`trunks, this`pageCount
      ensures pages.Keys == old(pages.Keys)
      ensures old(count) > 0 ==> count == old(count) - 1 && pageCount == old(pageCount)
      ensures old(count) > 0 && exact && mapSaysFree
              ==> pgno == nearby && (Valid() <==> !old(Misled(pages, trunks, max, nearby)))
      ensures old(count) > 0 && !(exact && mapSaysFree) ==>
                && Valid() && old(first in pages && TrunkOk(pages[first], max))
                   && FirstChoice(old(pages[first]), max, old(first), nearby, pgno)
      ensures old(count) > 0 && Valid() ==> pgno in old(Free()) && Free() == old(Free()) - multiset{pgno}
      ensures old(count) == 0 ==> Valid() && Free() == old(Free()) == multiset{} && pgno > old(pageCount)
                                  && pageCount == pgno
      ensures old(count) == 0 && !autoVacuum ==>
                && pgno != layout.pending
                && (pgno == old(pageCount) + 1
                    || (pgno == old(pageCount) + 2 && layout.pending == old(pageCount) + 1))
      ensures old(count) == 0 && autoVacuum ==> forall q :: old(pageCount) < q < pgno ==> !layout.IsData(q)
      ensures old(count) == 0 && autoVacuum ==>
                (layout.IsData(pgno) <==> !(old(pageCount) + 2 == layout.pending && layout.IsMap(layout.pending - 1)))
    {
      hide Bag, TrunkBag, Leaves, ListOk, TrunksOk, Chained, Single, FirstChoice, Misled;
      ListFacts(pages, first, count, trunks, max);
      if count > 0 {
        SomeTrunk(pages, first, trunks, max);
        pgno := TakeFromList(nearby, exact && mapSaysFree);
      } else {
        EmptyList(pages, first, trunks, max);
        pgno := TakeFromEnd(autoVacuum, layout);
      }
    }
  }

  /** sqlite3pager_pagecount: the page of the pending byte counts once the file reaches it. */
  function PagerCount(n: nat, layout: Layout): nat { if n + 1 == layout.pending then n + 1 else n }

  lemma {:induction false} EndPages(l: Layout, p: nat)
    requires l.Valid() && p >= 1
    ensures l.IsMap(p) ==> !l.IsMap(p + 1) && p != l.pending
  {
    if p >= 2 {
      var g, r := Place(l, p);
      MapAt(l, p, g, r);
      if r == 0 || r == 1 {
        MapAt(l, p + 1, g, r + 1);
      }
    }
  }

  /** A map page can come directly before the pending page: pages of 2048 bytes, 54 of them reserved, have 398
      entries to a map page; page 524288 is one, and 524289 the pending page. */
  lemma {:induction false} MapBeforePending()
    ensures var l := Layout(398, 0x4000_0000 / 2048 + 1); l.Valid() && l.n == (2048 - 54) / 5 && l.IsMap(l.pending - 1)
  {}

  /** What a call that does not search gets: the first trunk if it has no leaves, else the leaf closest to the
      wanted page. */
  ghost predicate FirstChoice(w: seq<nat>, max: nat, first: Pgno, nearby: Pgno, pgno: Pgno)
    requires TrunkOk(w, max)
  {
    if w[1] == 0 then pgno == first else exists c :: 0 <= c < w[1] && pgno == w[2 + c] && Nearest(w, nearby, c)
  }

  lemma {:induction false} NearestIsIt(w: seq<nat>, max: nat, first: Pgno, closest: nat, nearby: Pgno)
    requires TrunkOk(w, max) && max >= 1 && (closest < w[1] || closest == 0 == w[1])
    requires w[1] > 0 ==> Nearest(w, nearby, closest)
    ensures w[1] == 0 ==> nearby !in Leaves(w, max)
    ensures w[1] > 0 ==> w[2 + closest] in Leaves(w, max) && FirstChoice(w, max, first, nearby, w[2 + closest])
    ensures nearby > 0 && nearby in Leaves(w, max) ==> w[2 + closest] == nearby
  {
    assert w[1] > 0 ==> Leaves(w, max)[closest] == w[2 + closest];
  }

  /** No trunk before the `n`-th has the page, or a stale word that reads like it. */
  ghost predicate Passed(pages: map<Pgno, seq<nat>>, trunks: seq<Pgno>, max: nat, nearby: Pgno, n: nat)
    requires TrunksOk(pages, trunks, max) && max >= 1 && n <= |trunks|
  {
    forall j :: 0 <= j < n ==> !HeldAt(pages, trunks, max, nearby, j) && !StaleAt(pages, trunks, nearby, j)
  }

  /** What the next trunk says of the search. */
  lemma {:induction false} Meets(pages: map<Pgno, seq<nat>>, trunks: seq<Pgno>, max: nat, nearby: Pgno, i: nat, h: nat)
    requires TrunksOk(pages, trunks, max) && max >= 1 && i <= h < |trunks|
    requires Passed(pages, trunks, max, nearby, i) && HeldAt(pages, trunks, max, nearby, h)
    ensures !HeldAt(pages, trunks, max, nearby, i) ==> i < h
    ensures !HeldAt(pages, trunks, max, nearby, i) && !StaleAt(pages, trunks, nearby, i)
            ==> Passed(pages, trunks, max, nearby, i + 1)
    ensures HeldAt(pages, trunks, max, nearby, i)
            ==> !StaleAt(pages, trunks, nearby, i) && !Misled(pages, trunks, max, nearby)
    ensures StaleAt(pages, trunks, nearby, i) ==> Misled(pages, trunks, max, nearby)
  {
    assert HeldAt(pages, trunks, max, nearby, i) ==> !StaleAt(pages, trunks, nearby, i);
  }

  /** Freeing a page while the first trunk is full makes it a trunk without leaves: if its third word happens to be
      a leaf of the full trunk, the next search for that leaf is misled. */
  method FreeMisleading(list: FreeList, p: Pgno, leaf: Pgno)
    requires list.Valid() && list.count > 0 && !HasRoom(list.pages, list.first, list.max)
    requires p != 0 && p in list.pages && |list.pages[p]| >= list.max + 2 && p !in list.Free()
             && list.pages[p][2] == leaf
    requires list.first in list.pages && TrunkOk(list.pages[list.first], list.max)
    requires leaf in Leaves(list.pages[list.first], list.max)
    modifies list`first, list`count, list`pages, list`trunks
    ensures list.Valid() && leaf in list.Free() && Misled(list.pages, list.trunks, list.max, leaf)
  {
    hide Bag, TrunkBag, Leaves, ListOk, TrunksOk, Chained, Single;
    ListFacts(list.pages, list.first, list.count, list.trunks, list.max);
    SomeTrunk(list.pages, list.first, list.trunks, list.max);
    TrunkInBag(list.pages, list.trunks, 0, list.max);
    list.FreePage(p);
    ListFacts(list.pages, list.first, list.count, list.trunks, list.max);
    StaleFirst(list.pages, list.trunks, list.max, leaf);
  }

  lemma {:induction false} StaleFirst(pages: map<Pgno, seq<nat>>, trunks: seq<Pgno>, max: nat, leaf: Pgno)
    requires TrunksOk(pages, trunks, max) && max >= 1 && trunks != [] && trunks[0] != leaf
    requires pages[trunks[0]][1] == 0 && pages[trunks[0]][2] == leaf
    ensures Misled(pages, trunks, max, leaf)
  {
    assert Leaves(pages[trunks[0]], max) == [];
    assert StaleAt(pages, trunks, leaf, 0) && !HeldAt(pages, trunks, max, leaf, 0);
  }

  /** It happens for every capacity and every layout, in a run from the empty list: one page becomes the trunk, others
      its leaves, and the page that comes when it is full holds the first leaf's number in its third word. The search
      for that leaf then ruins the list. */
  method MisledRun(max: nat, layout: Layout) returns (list: FreeList, ps: seq<Pgno>, pgno: Pgno)
    requires 1 <= max < BtreeCell.TWO32 - 1 && layout.Valid()
    ensures list.max == max && |ps| == max + 2 && pgno == ps[1] && !list.Valid()
    ensures forall i :: 0 <= i < |ps| ==> ps[i] >= 3 && layout.IsData(ps[i])
  {
    hide Bag, TrunkBag, Leaves, ListOk, TrunksOk, Chained, Single, Misled, Layout.IsData;
    ps := DataRun(layout, max + 2);
    list := FullTrunk(max, ps);
    FirstLeaf(list.pages[ps[0]], max);
    FreeMisleading(list, ps[max + 1], ps[1]);
    pgno := list.AllocatePage(ps[1], true, true, true, layout);
  }

  /** The first of three pages in a row that holds data: one may be a map page, and one the pending page. */
  function NextData(l: Layout, p: nat): (q: Pgno)
    requires l.Valid() && p >= 2
    ensures p < q && l.IsData(q)
  {
    DataSoon(l, p);
    if l.IsData(p + 1) then p + 1 else if l.IsData(p + 2) then p + 2 else p + 3
  }

  lemma {:induction false} DataSoon(l: Layout, p: nat)
    requires l.Valid() && p >= 2
    ensures l.IsData(p + 1) || l.IsData(p + 2) || l.IsData(p + 3)
  {
    EndPages(l, p + 1);
    EndPages(l, p + 2);
    hide Layout.MapPage;
    if l.IsMap(p + 1) && l.IsMap(p + 3) {
      TwoMaps(l, p + 1);
    }
  }

  /** Map pages two apart have the pending page before the first of them. */
  lemma {:induction false} TwoMaps(l: Layout, p: nat)
    requires l.Valid() && p >= 2 && l.IsMap(p) && l.IsMap(p + 2)
    ensures p - 1 == l.pending
  {
    var g, r := Place(l, p);
    MapAt(l, p, g, r);
    if r == 0 && l.Group() > 2 {
      MapAt(l, p + 2, g, 2);
    }
  }

  /** Data pages in ascending order, from page 3 on. */
  function DataRun(l: Layout, n: nat): (ps: seq<Pgno>)
    requires l.Valid()
    ensures |ps| == n
    ensures forall i :: 0 <= i < n ==> ps[i] >= 3 && l.IsData(ps[i])
    ensures forall i, j :: 0 <= i < j < n ==> ps[i] < ps[j]
  {
    if n == 0 then [] else
      var ps := DataRun(l, n - 1);
      ps + [NextData(l, if n == 1 then 2 else ps[n - 2])]
  }

  function RunPages(ps: seq<Pgno>): (pages: map<Pgno, seq<nat>>)
    requires |ps| >= 3
    ensures forall k :: 0 <= k < |ps| ==> ps[k] in pages && |pages[ps[k]]| == |ps|
    ensures ps[|ps| - 1] in pages && pages[ps[|ps| - 1]] == Content(ps, |ps| - 1)
  {
    assert forall k :: 0 <= k < |ps| ==> ps[k] in ps;
    map p | p in ps :: Content(ps, if p == ps[|ps| - 1] then |ps| - 1 else 0)
  }

  /** A trunk, the first of the pages, with as many of the others for leaves as it can have; one is left. */
  method FullTrunk(max: nat, ps: seq<Pgno>) returns (list: FreeList)
    requires 1 <= max < BtreeCell.TWO32 - 1 && |ps| == max + 2 && Rising(ps)
    ensures fresh(list) && list.Valid() && list.max == max && list.count == max + 1 && list.first == ps[0]
    ensures ps[0] in list.pages && TrunkOk(list.pages[ps[0]], max) && list.pages[ps[0]][1] == max
            && list.pages[ps[0]][2] == ps[1]
    ensures ps[max + 1] in list.pages && list.pages[ps[max + 1]] == Content(ps, max + 1)
    ensures TrunksOk(list.pages, list.trunks, max) && ps[max + 1] !in list.Free()
  {
    hide Bag, TrunkBag, Leaves, ListOk, TrunksOk, Chained, Single, Content;
    var pages := RunPages(ps);
    list := new FreeList(max, pages, ps[max + 1]);
    list.FreePage(ps[0]);
    ListFacts(list.pages, list.first, list.count, list.trunks, list.max);
    var i := 0;
    while i < max
      invariant 0 <= i <= max && fresh(list) && Filling(list, max, ps, i)
    {
      AnotherLeaf(list, max, ps, i);
      i := i + 1;
    }
  }

  ghost predicate Rising(ps: seq<Pgno>) {
    forall i, j :: 0 <= i < j < |ps| ==> 0 < ps[i] < ps[j]
  }

  /** The trunk has `i` leaves; later pages are untouched. */
  ghost predicate Filling(list: FreeList, max: nat, ps: seq<Pgno>, i: nat)
    requires |ps| == max + 2
    reads list
  {
    && list.Valid() && list.max == max && list.count == i + 1 && list.first == ps[0]
    && TrunksOk(list.pages, list.trunks, max)
    && ps[0] in list.pages && TrunkOk(list.pages[ps[0]], max) && list.pages[ps[0]][1] == i
    && (i > 0 ==> list.pages[ps[0]][2] == ps[1])
    && (forall k :: 1 + i <= k < max + 2 ==> ps[k] in list.pages && |list.pages[ps[k]]| == max + 2
                                             && ps[k] !in list.Free())
    && ps[max + 1] in list.pages && list.pages[ps[max + 1]] == Content(ps, max + 1)
  }

  method AnotherLeaf(list: FreeList, max: nat, ps: seq<Pgno>, i: nat)
    requires i < max && |ps| == max + 2 && Rising(ps) && Filling(list, max, ps, i)
    modifies list`first, list`count, list`pages, list`trunks
    ensures Filling(list, max, ps, i + 1)
  {
    hide Bag, TrunkBag, Leaves, ListOk, TrunksOk, Chained, Single, Content;
    list.FreePage(ps[1 + i]);
    ListFacts(list.pages, list.first, list.count, list.trunks, list.max);
  }

  /** The pages of the run: all zero, but for one word of the last. */
  function Content(ps: seq<Pgno>, k: nat): (w: seq<nat>)
    requires |ps| >= 3
    ensures |w| == |ps|
    ensures k == |ps| - 1 ==> w[2] == ps[1]
  {
    seq(|ps|, i => if k == |ps| - 1 && i == 2 then ps[1] else 0)
  }

  lemma {:induction false} FirstLeaf(w: seq<nat>, max: nat)
    requires TrunkOk(w, max) && w[1] > 0
    ensures w[2] in Leaves(w, max)
  {
    assert Leaves(w, max)[0] == w[2];
  }

  lemma {:induction false} HeldSomewhere(pages: map<Pgno, seq<nat>>, trunks: seq<Pgno>, max: nat, x: Pgno)
    returns (h: nat)
    requires TrunksOk(pages, trunks, max) && x in Bag(pages, trunks, max)
    ensures h < |trunks| && HeldAt(pages, trunks, max, x, h)
  {
    h := |trunks| - 1;
    if x !in TrunkBag(pages, trunks[h], max) {
      var front := trunks[..h];
      h := HeldSomewhere(pages, front, max, x);
      assert trunks[h] == front[h];
    }
  }

  /** The list without a leaf. */
  lemma {:induction false} LeafTaken(pages: map<Pgno, seq<nat>>, first: Pgno, count: nat, trunks: seq<Pgno>, max: nat,
                                     i: nat, c: nat)
    requires ListOk(pages, first, count, trunks, max) && i < |trunks| && c < pages[trunks[i]][1]
    ensures count > 0 && var pages', x := pages[trunks[i] := WithoutLeaf(pages[trunks[i]], c)], pages[trunks[i]][2 + c];
            && ListOk(pages', first, count - 1, trunks, max) && x in Bag(pages, trunks, max)
            && Bag(pages', trunks, max) == Bag(pages, trunks, max) - multiset{x}
  {
    hide Bag, TrunkBag, Leaves, WithoutLeaf;
    var t, w := trunks[i], pages[trunks[i]];
    var less, x := WithoutLeaf(w, c), w[2 + c];
    LeavesWithout(w, max, c);
    SameLink(w, c);
    TrunkWritten(pages, first, count, trunks, max, i, less);
    BagOf(pages, t, max);
    BagOf(pages[t := less], t, max);
    TrunkCounted(pages, trunks, i, max);
    MinusOne(Bag(pages, trunks, max), TrunkBag(pages, t, max), multiset{t}, multiset(Leaves(w, max)),
             multiset(Leaves(less, max)), x);
  }

  lemma {:induction false} SameLink(w: seq<nat>, c: nat)
    requires |w| >= 2 && c < w[1] && w[1] + 2 <= |w|
    ensures |WithoutLeaf(w, c)| == |w| && WithoutLeaf(w, c)[0] == w[0]
  {}

  lemma {:induction false} MinusOne(all: multiset<Pgno>, part: multiset<Pgno>, t: multiset<Pgno>, ls: multiset<Pgno>,
                                    less: multiset<Pgno>, x: Pgno)
    requires part <= all && part == t + ls && x in ls && less == ls - multiset{x}
    ensures x in all && all - part + (t + less) == all - multiset{x} && |all| > 0 && |all - multiset{x}| == |all| - 1
  {
    assert part - multiset{x} == t + less;
    LessOne(all, part, x);
  }

  /** What takes the place of a trunk: nothing, or a page with the trunk's other pages. */
  ghost predicate Successor(pages: map<Pgno, seq<nat>>, trunks: seq<Pgno>, max: nat, i: nat,
                            pages1: map<Pgno, seq<nat>>, mid: seq<Pgno>)
    requires TrunksOk(pages, trunks, max) && i < |trunks|
  {
    && |mid| <= 1 && TrunksOk(pages1, mid, max) && (mid != [] ==> pages1[mid[0]][0] == Follower(trunks, i))
    && (forall j :: 0 <= j < |trunks| && j != i ==> trunks[j] in pages1 && pages1[trunks[j]] == pages[trunks[j]]
                                                    && trunks[j] !in mid)
    && Bag(pages1, mid, max) == TrunkBag(pages, trunks[i], max) - multiset{trunks[i]}
    && pages1.Keys == pages.Keys && forall x :: x in pages ==> |pages1[x]| == |pages[x]|
  }

  lemma {:induction false} Unlinked(pages: map<Pgno, seq<nat>>, first: Pgno, count: nat, trunks: seq<Pgno>, max: nat,
                                    i: nat)
    requires ListOk(pages, first, count, trunks, max) && i < |trunks| && pages[trunks[i]][1] == 0
    ensures Successor(pages, trunks, max, i, pages, [])
  {
    hide Bag, TrunkBag, Leaves;
    NoLeaves(pages, trunks[i], max);
    NothingInBag(pages, max);
  }

  lemma {:induction false} Promoted(pages: map<Pgno, seq<nat>>, first: Pgno, count: nat, trunks: seq<Pgno>, max: nat,
                                    i: nat, n: seq<nat>)
    requires ListOk(pages, first, count, trunks, max) && i < |trunks| && pages[trunks[i]][1] > 0
             && pages[trunks[i]][2] in pages
    requires var w, k := pages[trunks[i]], pages[trunks[i]][1];
             |n| == |pages[w[2]]| >= max + 2 && n[..1 + k] == [w[0], k - 1] + w[3..2 + k]
    ensures Successor(pages, trunks, max, i, pages[pages[trunks[i]][2] := n], [pages[trunks[i]][2]])
  {
    hide Bag, TrunkBag, Leaves;
    TrunkFacts(pages, first, count, trunks, max, i);
    PromotedLeaf(pages, trunks, max, i, n);
    var k := pages[trunks[i]][1];
    assert n[0] == n[..1 + k][0];
  }

  /** The list without a trunk. */
  lemma {:induction false} TakenTrunk(pages: map<Pgno, seq<nat>>, first: Pgno, count: nat, trunks: seq<Pgno>, max: nat,
                                      i: nat, pages1: map<Pgno, seq<nat>>, mid: seq<Pgno>)
    requires ListOk(pages, first, count, trunks, max) && i < |trunks| && Successor(pages, trunks, max, i, pages1, mid)
    ensures i > 0 ==> trunks[i - 1] in pages1 && |pages1[trunks[i - 1]]| > 0
    ensures count > 0 && var t := if mid != [] then mid[0] else Follower(trunks, i);
            var pages', more := Relinked(pages1, trunks, i, t), Spliced(trunks, i, mid);
            && ListOk(pages', if i == 0 then t else first, count - 1, more, max)
            && Bag(pages', more, max) == Bag(pages, trunks, max) - multiset{trunks[i]}
  {
    hide Bag, TrunkBag, Leaves;
    TrunkHas(pages, trunks[i], max);
    TrunkCounted(pages, trunks, i, max);
    TrunkReplaced(pages, first, count, trunks, max, i, pages1, mid);
    LessOne(Bag(pages, trunks, max), TrunkBag(pages, trunks[i], max), trunks[i]);
  }

  lemma {:induction false} LessOne(all: multiset<Pgno>, part: multiset<Pgno>, x: Pgno)
    requires part <= all && x in part
    ensures all - part + (part - multiset{x}) == all - multiset{x} && |all| > 0 && |all - multiset{x}| == |all| - 1
    ensures Single(all) ==> Single(all - multiset{x})
  {}

  lemma {:induction false} TrunkFacts(pages: map<Pgno, seq<nat>>, first: Pgno, count: nat, trunks: seq<Pgno>, max: nat,
                                      i: nat)
    requires ListOk(pages, first, count, trunks, max) && i < |trunks|
    ensures trunks[i] in pages && TrunkOk(pages[trunks[i]], max) && pages[trunks[i]][0] == Follower(trunks, i)
            && trunks[i] != 0
    ensures trunks[i] in Bag(pages, trunks, max)
    ensures pages[trunks[i]][1] > 0 ==> pages[trunks[i]][2] in pages && |pages[pages[trunks[i]][2]]| >= max + 2
  {
    hide Bag, TrunkBag;
    assert LinkedAt(pages, trunks, i);
    TrunkInBag(pages, trunks, i, max);
    assert pages[trunks[i]][1] > 0 ==> Leaves(pages[trunks[i]], max)[0] == pages[trunks[i]][2];
  }

  lemma {:induction false} NothingInBag(pages: map<Pgno, seq<nat>>, max: nat)
    ensures Bag(pages, [], max) == multiset{}
  {}

  /** The first leaf as a trunk, with the other leaves. */
  lemma {:induction false} PromotedLeaf(pages: map<Pgno, seq<nat>>, trunks: seq<Pgno>, max: nat, i: nat, n: seq<nat>)
    requires TrunksOk(pages, trunks, max) && Single(Bag(pages, trunks, max)) && i < |trunks| && pages[trunks[i]][1] > 0
    requires pages[trunks[i]][2] in pages && |pages[pages[trunks[i]][2]]| >= max + 2
    requires var w, k := pages[trunks[i]], pages[trunks[i]][1];
             |n| >= max + 2 && n[..1 + k] == [w[0], k - 1] + w[3..2 + k]
    ensures var w, t := pages[trunks[i]], pages[trunks[i]][2];
            && TrunkOk(n, max) && TrunksOk(pages[t := n], [t], max)
            && Bag(pages[t := n], [t], max) == TrunkBag(pages, trunks[i], max) - multiset{trunks[i]}
            && (forall j :: 0 <= j < |trunks| ==> trunks[j] != t)
  {
    hide Bag, TrunkBag, Leaves;
    var w, t := pages[trunks[i]], pages[trunks[i]][2];
    OtherLeaves(w, n, max);
    BagOf(pages, trunks[i], max);
    BagOf(pages[t := n], t, max);
    BagOne(pages[t := n], t, max);
    BagAround(pages, trunks, i, max);
    assert TrunkBag(pages, trunks[i], max)[t] <= Bag(pages, trunks, max)[t] <= 1;
    forall j | 0 <= j < |trunks| ensures trunks[j] != t {
      if j != i {
        TrunksDiffer(pages, trunks, i, j, max);
      }
    }
  }

  lemma {:induction false} OtherLeaves(w: seq<nat>, n: seq<nat>, max: nat)
    requires TrunkOk(w, max) && w[1] > 0 && |n| >= max + 2 && n[..1 + w[1]] == [w[0], w[1] - 1] + w[3..2 + w[1]]
    ensures TrunkOk(n, max) && multiset(Leaves(w, max)) == multiset{w[2]} + multiset(Leaves(n, max))
            && w[2] in Leaves(w, max)
  {
    var k := w[1];
    assert n[1] == n[..1 + k][1] == k - 1;
    assert Leaves(w, max) == [w[2]] + w[3..2 + k];
    assert Leaves(n, max) == n[..1 + k][2..] == w[3..2 + k];
  }

  lemma {:induction false} ListFacts(pages: map<Pgno, seq<nat>>, first: Pgno, count: nat, trunks: seq<Pgno>, max: nat)
    requires ListOk(pages, first, count, trunks, max)
    ensures TrunksOk(pages, trunks, max) && Chained(pages, first, trunks) && |Bag(pages, trunks, max)| == count
            && Single(Bag(pages, trunks, max))
  {}

  lemma {:induction false} EmptyList(pages: map<Pgno, seq<nat>>, first: Pgno, trunks: seq<Pgno>, max: nat)
    requires ListOk(pages, first, 0, trunks, max)
    ensures trunks == [] && first == 0 && Bag(pages, trunks, max) == multiset{}
  {
    hide Bag;
    assert Bag(pages, trunks, max) == multiset{};
    forall i | 0 <= i < |trunks| ensures trunks[i] in Bag(pages, trunks, max) {
      TrunkInBag(pages, trunks, i, max);
    }
    assert trunks == [];
  }

  lemma {:induction false} SomeTrunk(pages: map<Pgno, seq<nat>>, first: Pgno, trunks: seq<Pgno>, max: nat)
    requires TrunksOk(pages, trunks, max) && Chained(pages, first, trunks) && |Bag(pages, trunks, max)| > 0
    ensures trunks != [] && first == trunks[0] && first in pages && TrunkOk(pages[first], max)
  {}

  lemma {:induction false} BagOf(pages: map<Pgno, seq<nat>>, t: Pgno, max: nat)
    requires t in pages && TrunkOk(pages[t], max)
    ensures TrunkBag(pages, t, max) == multiset{t} + multiset(Leaves(pages[t], max))
  {}

  /** A trunk's pages are some of all. */
  lemma {:induction false} TrunkCounted(pages: map<Pgno, seq<nat>>, trunks: seq<Pgno>, i: nat, max: nat)
    requires TrunksOk(pages, trunks, max) && i < |trunks|
    ensures TrunkBag(pages, trunks[i], max) <= Bag(pages, trunks, max)
  {
    hide Bag, TrunkBag, Leaves;
    BagAround(pages, trunks, i, max);
  }
}
