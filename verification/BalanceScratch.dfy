/** The scratch area of balance_nonroot, to which dividers are copied: five pages of it are enough. */
module BalanceScratch {
  import opened Basics
  import opened BtreeCell
  import opened BalancePacking
  import opened BalanceMeaning
  import opened BalanceBound
  import opened BalanceSiblings

  /** The bytes of dividers with these keys, each behind a child pointer. */
  ghost function Copied(keys: seq<seq<Byte>>): nat {
    if keys == [] then 0 else Copied(keys[..|keys| - 1]) + |keys[|keys| - 1]| + 4
  }

  /** What is used of the area: by the dividers gathered, unless leaves keep all data, and by those made between
      leaves. A divider between interior pages is one of the cells gathered, where it is. */
  ghost function Scratch(kind: CellKind, leafData: bool, oldKeys: seq<seq<Byte>>, newKeys: seq<seq<Byte>>): nat {
    (if leafData then 0 else Copied(oldKeys)) + (if kind.leaf then Copied(newKeys) else 0)
  }

  lemma {:induction false} CopiedBound(keys: seq<seq<Byte>>, most: nat)
    requires forall i :: 0 <= i < |keys| ==> |keys[i]| + 4 <= most
    ensures Copied(keys) <= |keys| * most
  {
    if keys != [] {
      var k := |keys| - 1;
      CopiedBound(keys[..k], most);
      assert |keys| * most == k * most + most;
    }
  }

  /** A divider gathered is one of the cells. */
  lemma {:induction false} DividerGathered(nodes: seq<Node>, keys: seq<seq<Byte>>, n: nat, i: nat) returns (x: nat)
    requires n <= |nodes| <= |keys| + 1 && i + 1 < n
    ensures var all := Gather(false, nodes, keys, n); x < |all| && all[x] == nodes[i].right + keys[i]
    decreases n
  {
    var front := Gather(false, nodes, keys, n - 1);
    if i + 2 == n {
      x := |front|;
    } else {
      x := DividerGathered(nodes, keys, n - 1, i);
    }
  }

  lemma {:induction false} SizeAt(cells: seq<seq<Byte>>, room: nat, leafData: bool, x: nat)
    requires Modest(Sizes(cells), room, leafData) && x < |cells|
    ensures (if leafData then 1 else 2) * (|cells[x]| + 2) <= room
  {
    assert Sizes(cells)[x] == |cells[x]|;
  }

  lemma {:induction false} ShortKey(v: nat)
    requires v < TWO64
    ensures |PutVarint(v)| <= 9
  {
    VarintRoundTrip(PutVarint(v), 0, v);
  }

  /** Of up to three pages gathered and five written. */
  lemma {:induction false} ScratchFits(kind: CellKind, leafData: bool, room: nat, sibs: seq<Node>,
                                       oldKeys: seq<seq<Byte>>, cuts: seq<nat>, right: seq<Byte>, nodes: seq<Node>,
                                       keys: seq<seq<Byte>>)
    requires |oldKeys| + 1 == |sibs| <= NB && |keys| + 1 <= NB + 2 && room + 8 <= kind.usable && kind.usable >= 100
    requires Modest(Sizes(Gather(leafData, sibs, oldKeys, |sibs|)), room, leafData)
    requires Divided(kind.leaf, leafData, Gather(leafData, sibs, oldKeys, |sibs|), cuts, right, nodes, keys)
    requires leafData ==> kind.leaf && forall i :: 0 <= i < |keys| ==> KeyOfLast(kind, nodes[i], keys[i])
    ensures Scratch(kind, leafData, oldKeys, keys) <= 5 * kind.usable
  {
    hide Gather, Modest, Sizes, Copied, PutVarint, ParseCell, Shaped, Division;
    var all := Gather(leafData, sibs, oldKeys, |sibs|);
    if leafData {
      forall i | 0 <= i < |keys| ensures |keys[i]| + 4 <= 13 {
        ShortKey(ParseCell(kind, nodes[i].cells[|nodes[i].cells| - 1]).nKey);
      }
      CopiedBound(keys, 13);
    } else {
      var most := room / 2 + 2;
      forall i | 0 <= i < |oldKeys| ensures |oldKeys[i]| + 4 <= most {
        var x := DividerGathered(sibs, oldKeys, |sibs|, i);
        SizeAt(all, room, leafData, x);
      }
      CopiedBound(oldKeys, most);
      forall i | 0 <= i < |keys| ensures |keys[i]| + 4 <= most {
        assert PageDivided(kind.leaf, leafData, all, cuts, right, nodes, keys, i);
        SizeAt(all, room, leafData, cuts[i]);
      }
      CopiedBound(keys, most);
      Few(|oldKeys|, |keys|, most);
    }
  }

  lemma {:induction false} Few(a: nat, b: nat, most: nat)
    requires a <= 2 && b <= 4
    ensures a * most + b * most <= 6 * most
  {}
}
