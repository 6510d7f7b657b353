/** What neighbouring pages and the dividers between them mean, read in order, and why taking
    all their cells and dividing them anew means the same. */
module BalanceMeaning {
  import opened Basics
  import opened BtreeCell
  import opened BalancePacking

  /** A page: its cells, and its right child as four bytes (nothing on a leaf). */
  datatype Node = Node(cells: seq<seq<Byte>>, right: seq<Byte>)

  /** What an in-order walk meets: child pages, and keys. */
  datatype Token = Child(page: seq<Byte>) | Key(bytes: seq<Byte>)

  /** Cells of one page fit its kind: interior ones start with a child pointer. */
  ghost predicate Shaped(leaf: bool, cells: seq<seq<Byte>>) {
    forall i :: 0 <= i < |cells| ==> leaf || |cells[i]| >= 4
  }

  ghost function CellTokens(leaf: bool, c: seq<Byte>): seq<Token>
    requires leaf || |c| >= 4
  {
    if leaf then [Key(c)] else [Child(c[..4]), Key(c[4..])]
  }

  ghost function Tokens(leaf: bool, cells: seq<seq<Byte>>): seq<Token>
    requires Shaped(leaf, cells)
  {
    if cells == [] then [] else Tokens(leaf, cells[..|cells| - 1]) + CellTokens(leaf, cells[|cells| - 1])
  }

  ghost function Tail(leaf: bool, right: seq<Byte>): seq<Token> { if leaf then [] else [Child(right)] }

  ghost predicate Siblings(leaf: bool, nodes: seq<Node>, keys: seq<seq<Byte>>) {
    && nodes != [] && |keys| == |nodes| - 1
    && forall i :: 0 <= i < |nodes| ==> Shaped(leaf, nodes[i].cells) && |nodes[i].right| == (if leaf then 0 else 4)
  }

  /** Pages and the keys between them, in order. */
  ghost function Group(leaf: bool, nodes: seq<Node>, keys: seq<seq<Byte>>): seq<Token>
    requires Siblings(leaf, nodes, keys)
    decreases |nodes|
  {
    var k := |nodes| - 1;
    var last := Tokens(leaf, nodes[k].cells) + Tail(leaf, nodes[k].right);
    if k == 0 then last else Group(leaf, nodes[..k], keys[..k - 1]) + [Key(keys[k - 1])] + last
  }

  /** All cells of the first `n` pages, each divider with the right child of the page before it as
      its child. Where leaves keep all data, dividers are left out. */
  ghost function Gather(leafData: bool, nodes: seq<Node>, keys: seq<seq<Byte>>, n: nat): (r: seq<seq<Byte>>)
    requires n <= |nodes| && |nodes| <= |keys| + 1
  {
    if n == 0 then []
    else
      (if n == 1 then []
       else Gather(leafData, nodes, keys, n - 1) + (if leafData then [] else [nodes[n - 2].right + keys[n - 2]]))
       + nodes[n - 1].cells
  }

  lemma {:induction false} TokensAppend(leaf: bool, a: seq<seq<Byte>>, b: seq<seq<Byte>>)
    requires Shaped(leaf, a) && Shaped(leaf, b)
    ensures Shaped(leaf, a + b) && Tokens(leaf, a + b) == Tokens(leaf, a) + Tokens(leaf, b)
  {
    if b == [] {
      assert a + b == a;
    } else {
      var last := |b| - 1;
      TokensAppend(leaf, a, b[..last]);
      assert (a + b)[..|a| + last] == a + b[..last];
    }
  }

  lemma {:induction false} TokensOne(leaf: bool, c: seq<Byte>)
    requires leaf || |c| >= 4
    ensures Tokens(leaf, [c]) == CellTokens(leaf, c)
  {
    assert [c][..0] == [];
    assert Tokens(leaf, [c][..0]) == [];
  }

  /** The gathered cells say the same as the pages with their dividers. */
  lemma {:induction false} GatherMeans(leaf: bool, nodes: seq<Node>, keys: seq<seq<Byte>>, n: nat)
    requires Siblings(leaf, nodes, keys) && 0 < n <= |nodes|
    ensures Siblings(leaf, nodes[..n], keys[..n - 1]) && Shaped(leaf, Gather(false, nodes, keys, n))
    ensures Group(leaf, nodes[..n], keys[..n - 1])
            == Tokens(leaf, Gather(false, nodes, keys, n)) + Tail(leaf, nodes[n - 1].right)
    decreases n
  {
    hide Tokens, CellTokens;
    var front, page := Gather(false, nodes, keys, n - 1), nodes[n - 1];
    var some, between := nodes[..n], keys[..n - 1];
    if n > 1 {
      GatherMeans(leaf, nodes, keys, n - 1);
      var d := nodes[n - 2].right + keys[n - 2];
      assert some[..n - 1] == nodes[..n - 1] && between[..n - 2] == keys[..n - 2];
      TokensStep(leaf, front, nodes[n - 2].right, keys[n - 2], page.cells);
    } else {
      assert [] + page.cells == page.cells;
    }
  }

  lemma {:induction false} TokensStep(leaf: bool, front: seq<seq<Byte>>, right: seq<Byte>, key: seq<Byte>,
                                      cells: seq<seq<Byte>>)
    requires Shaped(leaf, front) && Shaped(leaf, cells) && |right| == if leaf then 0 else 4
    ensures Shaped(leaf, front + [right + key] + cells)
    ensures Tokens(leaf, front + [right + key] + cells)
            == Tokens(leaf, front) + Tail(leaf, right) + [Key(key)] + Tokens(leaf, cells)
  {
    hide Tokens, CellTokens;
    var d := right + key;
    TokensAppend(leaf, front, [d]);
    TokensOne(leaf, d);
    TokensAppend(leaf, front + [d], cells);
    DividerTokens(leaf, right, key);
  }

  lemma {:induction false} DividerTokens(leaf: bool, right: seq<Byte>, key: seq<Byte>)
    requires |right| == if leaf then 0 else 4
    ensures CellTokens(leaf, right + key) == Tail(leaf, right) + [Key(key)]
  {
    if leaf {
      assert right + key == key;
    } else {
      assert (right + key)[..4] == right && (right + key)[4..] == key;
    }
  }

  // ------------------------------------------------------------ dividing the cells

  /** Nodes and keys are those of a division of `cells`. */
  ghost predicate Divided(leaf: bool, leafData: bool, cells: seq<seq<Byte>>, cuts: seq<nat>, right: seq<Byte>,
                          nodes: seq<Node>, keys: seq<seq<Byte>>)
  {
    && Division(|cells|, cuts, leafData) && Shaped(leaf, cells) && |nodes| == |cuts| == |keys| + 1
    && forall i :: 0 <= i < |cuts| ==> PageDivided(leaf, leafData, cells, cuts, right, nodes, keys, i)
  }

  ghost predicate PageDivided(leaf: bool, leafData: bool, cells: seq<seq<Byte>>, cuts: seq<nat>, right: seq<Byte>,
                              nodes: seq<Node>, keys: seq<seq<Byte>>, i: nat)
    requires i < |nodes| == |cuts| == |keys| + 1
  {
    && Start(cuts, leafData, i) <= cuts[i] <= |cells|
    && nodes[i].cells == cells[Start(cuts, leafData, i)..cuts[i]]
    && (if leaf then nodes[i].right == [] else |nodes[i].right| == 4)
    && (i == |cuts| - 1 && !leaf ==> nodes[i].right == right)
    && (i < |cuts| - 1 && !leafData ==> cuts[i] < |cells| && nodes[i].right + keys[i] == cells[cuts[i]])
  }

  /** Gathering a division gives back the cells. */
  lemma {:induction false} GatherDivided(leaf: bool, leafData: bool, cells: seq<seq<Byte>>, cuts: seq<nat>,
                                         right: seq<Byte>, nodes: seq<Node>, keys: seq<seq<Byte>>, n: nat)
    requires Divided(leaf, leafData, cells, cuts, right, nodes, keys) && 0 < n <= |nodes|
    ensures cuts[n - 1] <= |cells| && Gather(leafData, nodes, keys, n) == cells[..cuts[n - 1]]
    decreases n
  {
    hide Division, Gather;
    assert PageDivided(leaf, leafData, cells, cuts, right, nodes, keys, n - 1);
    GatherStep(leafData, nodes, keys, n);
    if n > 1 {
      GatherDivided(leaf, leafData, cells, cuts, right, nodes, keys, n - 1);
      assert PageDivided(leaf, leafData, cells, cuts, right, nodes, keys, n - 2);
      JoinCut(leafData, cells, cuts[n - 2], cuts[n - 1]);
    } else {
      assert [] + cells[..cuts[0]] == cells[..cuts[0]];
    }
  }

  lemma {:induction false} GatherStep(leafData: bool, nodes: seq<Node>, keys: seq<seq<Byte>>, n: nat)
    requires 0 < n <= |nodes| && |nodes| <= |keys| + 1
    ensures Gather(leafData, nodes, keys, n) ==
            (if n == 1 then []
             else Gather(leafData, nodes, keys, n - 1) + (if leafData then [] else [nodes[n - 2].right + keys[n - 2]]))
             + nodes[n - 1].cells
  {}

  lemma {:induction false} JoinCut(leafData: bool, cells: seq<seq<Byte>>, c: nat, b: nat)
    requires c + Gap(leafData) <= b <= |cells|
    ensures cells[..c] + (if leafData then [] else [cells[c]]) + cells[c + Gap(leafData)..b] == cells[..b]
  {
    if !leafData {
      assert cells[..c] + [cells[c]] == cells[..c + 1];
    }
  }

  /** A division of the gathered cells of some siblings, with their last right child kept, means
      what the siblings meant. */
  lemma {:induction false} SameMeaning(leaf: bool, old_: seq<Node>, oldKeys: seq<seq<Byte>>, cuts: seq<nat>,
                                       nodes: seq<Node>, keys: seq<seq<Byte>>)
    requires Siblings(leaf, old_, oldKeys)
    requires Divided(leaf, false, Gather(false, old_, oldKeys, |old_|), cuts, old_[|old_| - 1].right, nodes, keys)
    ensures Siblings(leaf, nodes, keys)
    ensures Group(leaf, nodes, keys) == Group(leaf, old_, oldKeys)
  {
    hide Tokens;
    var cells, k := Gather(false, old_, oldKeys, |old_|), |nodes|;
    DividedSiblings(leaf, false, cells, cuts, old_[|old_| - 1].right, nodes, keys);
    GatherDivided(leaf, false, cells, cuts, old_[|old_| - 1].right, nodes, keys, k);
    assert cuts[k - 1] == |cells| && cells[..|cells|] == cells;
    GatherMeans(leaf, old_, oldKeys, |old_|);
    GatherMeans(leaf, nodes, keys, k);
    assert nodes[..k] == nodes && keys[..k - 1] == keys && old_[..|old_|] == old_ && oldKeys[..|old_| - 1] == oldKeys;
    assert PageDivided(leaf, false, cells, cuts, old_[|old_| - 1].right, nodes, keys, k - 1);
  }

  lemma {:induction false} DividedSiblings(leaf: bool, leafData: bool, cells: seq<seq<Byte>>, cuts: seq<nat>,
                                           right: seq<Byte>, nodes: seq<Node>, keys: seq<seq<Byte>>)
    requires Divided(leaf, leafData, cells, cuts, right, nodes, keys)
    ensures Siblings(leaf, nodes, keys)
  {
    forall i | 0 <= i < |nodes| ensures Shaped(leaf, nodes[i].cells) && |nodes[i].right| == (if leaf then 0 else 4) {
      assert PageDivided(leaf, leafData, cells, cuts, right, nodes, keys, i);
    }
  }

  /** All cells of leaves that keep all data, in order. */
  ghost function Concat(nodes: seq<Node>): seq<seq<Byte>> {
    if nodes == [] then [] else Concat(nodes[..|nodes| - 1]) + nodes[|nodes| - 1].cells
  }

  lemma {:induction false} GatherConcat(nodes: seq<Node>, keys: seq<seq<Byte>>, n: nat)
    requires n <= |nodes| <= |keys| + 1
    ensures Gather(true, nodes, keys, n) == Concat(nodes[..n])
    decreases n
  {
    if n > 0 {
      assert nodes[..n][..n - 1] == nodes[..n - 1];
      GatherConcat(nodes, keys, n - 1);
    }
  }

  /** On leaves that keep all data the sequence of cells is unchanged. */
  lemma {:induction false} SameLeaves(old_: seq<Node>, oldKeys: seq<seq<Byte>>, cuts: seq<nat>, nodes: seq<Node>,
                                      keys: seq<seq<Byte>>)
    requires Siblings(true, old_, oldKeys)
    requires Divided(true, true, Gather(true, old_, oldKeys, |old_|), cuts, [], nodes, keys)
    ensures Concat(nodes) == Concat(old_)
  {
    var cells := Gather(true, old_, oldKeys, |old_|);
    GatherDivided(true, true, cells, cuts, [], nodes, keys, |nodes|);
    assert cells[..|cells|] == cells && nodes[..|nodes|] == nodes && old_[..|old_|] == old_;
    GatherConcat(nodes, keys, |nodes|);
    GatherConcat(old_, oldKeys, |old_|);
  }
}
