/** Cells that came from `n` pages, one of them overfull, never need more than `n + 2` pages. */
module BalanceBound {
  import opened Basics
  import opened BtreeCell
  import opened BalancePacking
  import opened BalanceMeaning

  ghost function Sizes(cells: seq<seq<Byte>>): (r: seq<nat>)
    ensures |r| == |cells|
    ensures forall i :: 0 <= i < |r| ==> r[i] == |cells[i]|
  {
    seq(|cells|, i requires 0 <= i < |cells| => |cells[i]|)
  }

  ghost function Weight(cells: seq<seq<Byte>>): nat { Load(Sizes(cells), 0, |cells|) }

  // ------------------------------------------------------------ weights

  lemma {:induction false} LoadSame(s: seq<nat>, t: seq<nat>, a: nat, b: nat, shift: nat)
    requires b <= |s| && b + shift <= |t| && forall i :: a <= i < b ==> s[i] == t[i + shift]
    ensures Load(t, a + shift, b + shift) == Load(s, a, b)
    decreases b
  {
    if a < b {
      LoadSame(s, t, a, b - 1, shift);
      assert s[b - 1] == t[b - 1 + shift];
    }
  }

  /** The weight of a stretch of cells. */
  lemma {:induction false} LoadSlice(cells: seq<seq<Byte>>, a: nat, b: nat)
    requires a <= b <= |cells|
    ensures Load(Sizes(cells), a, b) == Weight(cells[a..b])
  {
    hide Load;
    LoadSame(Sizes(cells[a..b]), Sizes(cells), 0, b - a, a);
  }

  lemma {:induction false} LoadJoin(s: seq<nat>, a: nat, b: nat, c: nat)
    requires a <= b <= c <= |s|
    ensures Load(s, a, c) == Load(s, a, b) + Load(s, b, c)
    decreases c
  {
    if b < c {
      LoadJoin(s, a, b, c - 1);
    }
  }

  lemma {:induction false} WeightAppend(a: seq<seq<Byte>>, b: seq<seq<Byte>>)
    ensures Weight(a + b) == Weight(a) + Weight(b)
  {
    hide Load;
    var all := a + b;
    LoadJoin(Sizes(all), 0, |a|, |all|);
    LoadSlice(all, 0, |a|);
    LoadSlice(all, |a|, |all|);
    assert all[0..|a|] == a && all[|a|..|all|] == b;
  }

  // ------------------------------------------------------------ the old pages as a division

  ghost predicate Fitting(nodes: seq<Node>, usable: nat) {
    forall i :: 0 <= i < |nodes| ==> Weight(nodes[i].cells) <= usable
  }

  /** The cut after each page among the gathered cells. */
  ghost function Ends(leafData: bool, nodes: seq<Node>, keys: seq<seq<Byte>>, n: nat): (r: seq<nat>)
    requires n <= |nodes| <= |keys| + 1
    ensures |r| == n
    ensures forall i :: 0 <= i < n ==> r[i] == |Gather(leafData, nodes, keys, i + 1)|
  {
    if n == 0 then [] else Ends(leafData, nodes, keys, n - 1) + [|Gather(leafData, nodes, keys, n)|]
  }

  lemma {:induction false} GatherPrefix(leafData: bool, nodes: seq<Node>, keys: seq<seq<Byte>>, i: nat, n: nat)
    requires i <= n <= |nodes| <= |keys| + 1
    ensures Gather(leafData, nodes, keys, i) <= Gather(leafData, nodes, keys, n)
    decreases n
  {
    if i < n {
      GatherPrefix(leafData, nodes, keys, i, n - 1);
    }
  }

  /** Where one page's cells are among all. */
  lemma {:induction false} GatherPage(leafData: bool, nodes: seq<Node>, keys: seq<seq<Byte>>, i: nat)
    requires i < |nodes| <= |keys| + 1
    ensures var all, cuts := Gather(leafData, nodes, keys, |nodes|), Ends(leafData, nodes, keys, |nodes|);
            var a := Start(cuts, leafData, i);
            a <= cuts[i] <= |all| && all[a..cuts[i]] == nodes[i].cells
  {
    var all, cuts := Gather(leafData, nodes, keys, |nodes|), Ends(leafData, nodes, keys, |nodes|);
    var a, upto := Start(cuts, leafData, i), Gather(leafData, nodes, keys, i + 1);
    GatherPrefix(leafData, nodes, keys, i + 1, |nodes|);
    assert a + |nodes[i].cells| == |upto| == cuts[i];
    assert all[a..cuts[i]] == upto[a..];
  }

  /** Pages that fit are a legal division of their cells. */
  lemma {:induction false} GatherLegal(leafData: bool, nodes: seq<Node>, keys: seq<seq<Byte>>, usable: nat)
    requires nodes != [] && |nodes| <= |keys| + 1 && Fitting(nodes, usable)
    ensures Legal(Sizes(Gather(leafData, nodes, keys, |nodes|)), usable, leafData, Ends(leafData, nodes, keys, |nodes|))
  {
    hide Load, Gather, Ends, Start;
    var all, cuts := Gather(leafData, nodes, keys, |nodes|), Ends(leafData, nodes, keys, |nodes|);
    forall i | 0 <= i < |cuts| ensures PageOk(|all|, cuts, leafData, i)
        && PageFits(Sizes(all), usable, leafData, cuts, i) {
      GatherPage(leafData, nodes, keys, i);
      LoadSlice(all, Start(cuts, leafData, i), cuts[i]);
    }
  }

  // ------------------------------------------------------------ taking the overfull page apart

  lemma {:induction false} GatherAppend(leafData: bool, xs: seq<Node>, kx: seq<seq<Byte>>, k: seq<Byte>, ys: seq<Node>,
                                        ky: seq<seq<Byte>>, n: nat)
    requires xs != [] && |kx| == |xs| - 1 && |ky| == |ys| - 1 && 0 < n <= |ys|
    ensures Gather(leafData, xs + ys, kx + [k] + ky, |xs| + n) ==
            Gather(leafData, xs, kx, |xs|) + (if leafData then [] else [xs[|xs| - 1].right + k])
            + Gather(leafData, ys, ky, n)
    decreases n
  {
    hide Gather;
    var all, keys := xs + ys, kx + [k] + ky;
    GatherStep(leafData, all, keys, |xs| + n);
    GatherStep(leafData, ys, ky, n);
    assert all[|xs| + n - 1] == ys[n - 1];
    if n == 1 {
      assert all[..|xs|] == xs && keys[..|xs| - 1] == kx && all[|xs| - 1] == xs[|xs| - 1] && keys[|xs| - 1] == k;
      assert xs[..|xs|] == xs && kx[..|xs| - 1] == kx;
      GatherSame(leafData, all, keys, xs, kx, |xs|);
    } else {
      GatherAppend(leafData, xs, kx, k, ys, ky, n - 1);
      assert all[|xs| + n - 2] == ys[n - 2] && keys[|xs| + n - 2] == ky[n - 2];
    }
  }

  lemma {:induction false} GatherSame(leafData: bool, xs: seq<Node>, kx: seq<seq<Byte>>, ys: seq<Node>,
                                      ky: seq<seq<Byte>>, n: nat)
    requires n <= |xs| <= |kx| + 1 && n <= |ys| <= |ky| + 1 && xs[..n] == ys[..n]
    requires n > 0 ==> kx[..n - 1] == ky[..n - 1]
    ensures Gather(leafData, xs, kx, n) == Gather(leafData, ys, ky, n)
    decreases n
  {
    if n > 0 {
      assert xs[..n][..n - 1] == xs[..n - 1] && ys[..n][..n - 1] == ys[..n - 1];
      assert xs[n - 1] == xs[..n][n - 1] && ys[n - 1] == ys[..n][n - 1];
      if n > 1 {
        assert kx[..n - 1][..n - 2] == kx[..n - 2] && ky[..n - 1][..n - 2] == ky[..n - 2];
        assert kx[n - 2] == kx[..n - 1][n - 2] && ky[n - 2] == ky[..n - 1][n - 2];
        assert xs[n - 2] == xs[..n][n - 2] && ys[n - 2] == ys[..n][n - 2];
      }
      GatherSame(leafData, xs, kx, ys, ky, n - 1);
    }
  }

  /** A page may be replaced by pages with the same cells and the same last right child. */
  lemma {:induction false} GatherReplace(leafData: bool, nodes: seq<Node>, keys: seq<seq<Byte>>, p: nat, ns: seq<Node>,
                                         ks: seq<seq<Byte>>)
    returns (more: seq<Node>, mores: seq<seq<Byte>>)
    requires |keys| == |nodes| - 1 && p < |nodes| && ns != [] && |ks| == |ns| - 1
    requires Gather(leafData, ns, ks, |ns|) == nodes[p].cells && ns[|ns| - 1].right == nodes[p].right
    ensures more == nodes[..p] + ns + nodes[p + 1..] && |mores| == |more| - 1
    ensures Gather(leafData, more, mores, |more|) == Gather(leafData, nodes, keys, |nodes|)
  {
    hide Gather;
    var before, after := nodes[..p], nodes[p + 1..];
    var page, pages, pageKeys := [nodes[p]], ns, ks;
    OneNode(leafData, nodes[p]);
    var left, leftKeys := page, [];
    if p > 0 {
      GatherAppend(leafData, before, keys[..p - 1], keys[p - 1], ns, ks, |ns|);
      GatherAppend(leafData, before, keys[..p - 1], keys[p - 1], page, [], 1);
      pages, pageKeys := before + ns, keys[..p - 1] + [keys[p - 1]] + ks;
      left, leftKeys := before + page, keys[..p - 1] + [keys[p - 1]] + [];
    }
    more, mores := pages, pageKeys;
    assert leftKeys == keys[..p];
    assert left == nodes[..p + 1];
    if p + 1 < |nodes| {
      GatherAppend(leafData, pages, pageKeys, keys[p], after, keys[p + 1..], |after|);
      GatherAppend(leafData, left, leftKeys, keys[p], after, keys[p + 1..], |after|);
      more, mores := pages + after, pageKeys + [keys[p]] + keys[p + 1..];
      assert left + after == nodes && leftKeys + [keys[p]] + keys[p + 1..] == keys;
    } else {
      assert left == nodes && leftKeys == keys;
      assert more == nodes[..p] + ns + nodes[p + 1..];
    }
  }

  lemma {:induction false} OneNode(leafData: bool, n: Node)
    ensures Gather(leafData, [n], [], 1) == n.cells
  {
    assert [] + n.cells == n.cells;
  }

  /** A cell as a divider: its child pointer, and the rest. */
  ghost function Front(leaf: bool, c: seq<Byte>): seq<Byte>
    requires leaf || |c| >= 4
  {
    if leaf then [] else c[..4]
  }

  ghost function Back(leaf: bool, c: seq<Byte>): (r: seq<Byte>)
    requires leaf || |c| >= 4
    ensures Front(leaf, c) + r == c
  {
    if leaf then c else c[4..]
  }

  lemma {:induction false} TwoNodes(leafData: bool, a: Node, k: seq<Byte>, b: Node)
    ensures Gather(leafData, [a, b], [k], 2) == a.cells + (if leafData then [] else [a.right + k]) + b.cells
  {
    OneNode(leafData, a);
    GatherSame(leafData, [a, b], [k], [a], [], 1);
  }

  lemma {:induction false} ThreeNodes(leafData: bool, a: Node, k: seq<Byte>, b: Node, l: seq<Byte>, c: Node)
    ensures Gather(leafData, [a, b, c], [k, l], 3) ==
            a.cells + (if leafData then [] else [a.right + k]) + b.cells + (if leafData then [] else [b.right + l])
            + c.cells
  {
    TwoNodes(leafData, a, k, b);
    GatherSame(leafData, [a, b, c], [k, l], [a, b], [k], 2);
  }

  /** An overfull page: `a` and `b` fit together, and the cells `over` between them did not fit.
      On leaves that keep all data `over` is one cell, elsewhere up to four. */
  ghost predicate Overfull(leaf: bool, leafData: bool, usable: nat, a: seq<seq<Byte>>, over: seq<seq<Byte>>,
                           b: seq<seq<Byte>>) {
    && Weight(a) + Weight(b) <= usable && |over| <= (if leafData then 1 else 4)
    && Shaped(leaf, over) && Shaped(leaf, b) && (leafData ==> leaf)
    && Modest(Sizes(over), usable, leafData)
  }

  lemma {:induction false} WeightOne(c: seq<Byte>)
    ensures Weight([c]) == |c| + 2 && Weight([]) == 0
  {
    LoadOne(Sizes([c]), 0);
  }

  lemma {:induction false} Parted(leaf: bool, leafData: bool, usable: nat, a: seq<seq<Byte>>, over: seq<seq<Byte>>,
                                  b: seq<seq<Byte>>, right: seq<Byte>)
    returns (ns: seq<Node>, ks: seq<seq<Byte>>)
    requires Overfull(leaf, leafData, usable, a, over, b)
    ensures 0 < |ns| <= 3 && |ks| == |ns| - 1 && (over == [] ==> |ns| == 1)
    ensures Gather(leafData, ns, ks, |ns|) == a + over + b && ns[|ns| - 1].right == right
    ensures Fitting(ns, usable)
  {
    hide Gather, Weight, Sizes, Modest;
    ks := [];
    if over == [] {
      ns := [Node(a + b, right)];
      OneNode(leafData, ns[0]);
      WeightAppend(a, b);
      assert a + over + b == a + b;
    } else if leafData {
      ns, ks := [Node(a, []), Node(over, []), Node(b, right)], [[], []];
      ThreeNodes(true, ns[0], [], ns[1], [], ns[2]);
      OverWeight(over, usable, leafData, 0, 1);
      assert over[0..1] == over;
      assert a + [] + over + [] + b == a + over + b;
    } else {
      ns, ks := PartedPages(leaf, usable, a, over, b, right);
    }
  }

  /** Up to two of the overflowing cells fit on a page of their own. */
  lemma {:induction false} OverWeight(over: seq<seq<Byte>>, usable: nat, leafData: bool, i: nat, j: nat)
    requires Modest(Sizes(over), usable, leafData) && i < j <= |over| && j - i <= if leafData then 1 else 2
    ensures Weight(over[i..j]) <= usable
  {
    LoadSlice(over, i, j);
    assert Sizes(over)[i] >= 4 && Sizes(over)[j - 1] >= 4;
    if j == i + 1 {
      LoadOne(Sizes(over), i);
    } else {
      LoadTwo(Sizes(over), i);
    }
  }

  lemma {:induction false} PartedPages(leaf: bool, usable: nat, a: seq<seq<Byte>>, over: seq<seq<Byte>>,
                                       b: seq<seq<Byte>>, right: seq<Byte>)
    returns (ns: seq<Node>, ks: seq<seq<Byte>>)
    requires Overfull(leaf, false, usable, a, over, b) && over != []
    ensures 0 < |ns| <= 3 && |ks| == |ns| - 1
    ensures Gather(false, ns, ks, |ns|) == a + over + b && ns[|ns| - 1].right == right
    ensures Fitting(ns, usable)
  {
    hide Gather, Weight, Sizes, Modest, Overfull;
    OverfullFacts(leaf, usable, a, over, b);
    if |over| == 1 {
      ns, ks := TwoPages(leaf, usable, a, over[0], b, right);
      assert a + [over[0]] + b == a + over + b;
    } else if |over| == 2 && b == [] {
      OverWeight(over, usable, false, 1, 2);
      ns, ks := TwoPages(leaf, usable, a, over[0], over[1..2], right);
      assert a + [over[0]] + over[1..2] == a + over + b;
    } else if |over| == 2 {
      OverWeight(over, usable, false, 1, 2);
      WeightAppend([b[0]], b[1..]);
      assert b == [b[0]] + b[1..];
      ns, ks := ThreePages(leaf, usable, a, over[0], over[1..2], b[0], b[1..], right);
      assert a + [over[0]] + over[1..2] + [b[0]] + b[1..] == a + over + b;
    } else {
      var m := |over| - 1;
      OverWeight(over, usable, false, 1, m);
      ns, ks := ThreePages(leaf, usable, a, over[0], over[1..m], over[m], b, right);
      assert a + [over[0]] + over[1..m] + [over[m]] + b == a + over + b;
    }
  }

  lemma {:induction false} OverfullFacts(leaf: bool, usable: nat, a: seq<seq<Byte>>, over: seq<seq<Byte>>,
                                         b: seq<seq<Byte>>)
    requires Overfull(leaf, false, usable, a, over, b)
    ensures Weight(a) <= usable && Weight(b) <= usable && |over| <= 4 && Modest(Sizes(over), usable, false)
    ensures forall i :: 0 <= i < |over| ==> leaf || |over[i]| >= 4
    ensures forall i :: 0 <= i < |b| ==> leaf || |b[i]| >= 4
  {
    hide Weight;
  }

  lemma {:induction false} TwoPages(leaf: bool, usable: nat, a: seq<seq<Byte>>, c: seq<Byte>, b: seq<seq<Byte>>,
                                    right: seq<Byte>)
    returns (ns: seq<Node>, ks: seq<seq<Byte>>)
    requires (leaf || |c| >= 4) && Weight(a) <= usable && Weight(b) <= usable
    ensures |ns| == 2 && |ks| == 1 && Gather(false, ns, ks, 2) == a + [c] + b && ns[1].right == right
            && Fitting(ns, usable)
  {
    hide Gather, Weight;
    ns, ks := [Node(a, Front(leaf, c)), Node(b, right)], [Back(leaf, c)];
    TwoNodes(false, ns[0], ks[0], ns[1]);
  }

  lemma {:induction false} ThreePages(leaf: bool, usable: nat, a: seq<seq<Byte>>, c: seq<Byte>, m: seq<seq<Byte>>,
                                      d: seq<Byte>, b: seq<seq<Byte>>, right: seq<Byte>)
    returns (ns: seq<Node>, ks: seq<seq<Byte>>)
    requires leaf || (|c| >= 4 && |d| >= 4)
    requires Weight(a) <= usable && Weight(m) <= usable && Weight(b) <= usable
    ensures |ns| == 3 && |ks| == 2 && Gather(false, ns, ks, 3) == a + [c] + m + [d] + b && ns[2].right == right
            && Fitting(ns, usable)
  {
    hide Gather, Weight;
    ns, ks := [Node(a, Front(leaf, c)), Node(m, Front(leaf, d)), Node(b, right)], [Back(leaf, c), Back(leaf, d)];
    ThreeNodes(false, ns[0], ks[0], ns[1], ks[1], ns[2]);
  }

  /** The cells of pages of which one is overfull have a legal division with at most two pages more. */
  lemma {:induction false} TwoMorePages(leaf: bool, leafData: bool, usable: nat, nodes: seq<Node>, keys: seq<seq<Byte>>,
                                        p: nat, a: seq<seq<Byte>>, over: seq<seq<Byte>>, b: seq<seq<Byte>>)
    returns (cuts: seq<nat>)
    requires |keys| == |nodes| - 1 && p < |nodes| && nodes[p].cells == a + over + b
    requires Overfull(leaf, leafData, usable, a, over, b)
    requires forall i :: 0 <= i < |nodes| && i != p ==> Weight(nodes[i].cells) <= usable
    ensures Legal(Sizes(Gather(leafData, nodes, keys, |nodes|)), usable, leafData, cuts)
    ensures |cuts| <= |nodes| + (if over == [] then 0 else 2)
  {
    hide Gather, Weight, Sizes, Overfull, Legal;
    var ns, ks := Parted(leaf, leafData, usable, a, over, b, nodes[p].right);
    var more, mores := GatherReplace(leafData, nodes, keys, p, ns, ks);
    forall i | 0 <= i < |more| ensures Weight(more[i].cells) <= usable {
      if i >= p + |ns| {
        assert more[i] == nodes[i - |ns| + 1];
      }
    }
    GatherLegal(leafData, more, mores, usable);
    cuts := Ends(leafData, more, mores, |more|);
  }
}
