/** A cursor on a b-tree: to the first and last entry, to the next and the previous one, and to a key. */
module BtreeCursor {
  import opened BtreeTree

  /** Going down to a child: what is before it is now to the left. */
  lemma {:induction false} Down(root: Tree, path: seq<Step>, page: Tree, idx: nat, leafData: bool)
    requires Ok(root) && Reached(root, path, page) && StepsOk(path) && Ok(page) && !page.leaf && idx <= |page.keys|
    ensures var path', kid := path + [Step(page, idx)], page.kids[idx];
            && StepsOk(path') && Ok(kid) && |kid.keys| > 0 && Reached(root, path', kid)
            && Left(path', leafData) == Left(path, leafData) + Before(page, idx, leafData)
            && Right(path', leafData) == After(page, idx, leafData) + Right(path, leafData)
  {
    hide Before, After;
    assert (path + [Step(page, idx)])[..|path|] == path;
  }

  /** Going up again. */
  lemma {:induction false} Up(root: Tree, path: seq<Step>, page: Tree, leafData: bool)
    requires Ok(root) && Reached(root, path, page) && path != []
    ensures var k, s := |path| - 1, path[|path| - 1];
            && StepsOk(path) && StepsOk(path[..k]) && Reached(root, path[..k], s.page) && Ok(s.page) && !s.page.leaf
               && s.idx <= |s.page.keys|
            && |s.page.keys| > 0 && page == s.page.kids[s.idx]
            && |Left(path, leafData)| == |Left(path[..k], leafData)| + |Before(s.page, s.idx, leafData)|
  {
    hide Before;
    ReachedOk(root, path, page);
    ReachedOk(root, path[..|path| - 1], path[|path| - 1].page);
  }

  /** Before, child by child. */
  lemma {:induction false} BeforeNext(t: Tree, i: nat, leafData: bool)
    requires Ok(t) && i < |t.keys|
    ensures |Before(t, i + 1, leafData)| == |Before(t, i, leafData)|
            + if t.leaf then 1 else |Entries(t.kids[i], leafData)| + (if leafData then 0 else 1)
  {
    hide Entries;
  }

  lemma {:induction false} NoneBefore(t: Tree, leafData: bool)
    requires Ok(t)
    ensures |Before(t, 0, leafData)| == 0
  {}

  lemma {:induction false} AllOf(t: Tree, leafData: bool)
    requires Ok(t)
    ensures |Entries(t, leafData)| == |Before(t, |t.keys|, leafData)|
            + if t.leaf then 0 else |Entries(t.kids[|t.keys|], leafData)|
  {
    hide Before;
    if t.leaf {
      LeafBefore(t, |t.keys|, leafData);
    }
  }

  lemma {:induction false} LeafBefore(t: Tree, i: nat, leafData: bool)
    requires Ok(t) && t.leaf && i <= |t.keys|
    ensures Before(t, i, leafData) == t.keys[..i] && Entries(t, leafData) == t.keys
  {}

  /** Entries before the place between cells. */
  ghost function Gap(path: seq<Step>, page: Tree, idx: nat, leafData: bool): nat
    requires StepsOk(path) && Ok(page) && idx <= |page.keys|
  {
    |Left(path, leafData)| + |Before(page, idx, leafData)|
  }

  class BtCursor {
    const root: Tree
    const leafData: bool
    const intKey: bool
    /** The pages above, each with the child gone down to. */
    var path: seq<Step>
    var page: Tree
    var idx: nat
    var valid: bool

    /** On some page of the tree. */
    ghost predicate OnPage()
      reads this
    {
      Ok(root) && Reached(root, path, page) && StepsOk(path) && Ok(page) && (path != [] ==> |page.keys| > 0)
    }

    /** On a cell, when valid; of an interior page of a leaf-data tree only in passing. */
    ghost predicate OnCell()
      reads this
    {
      OnPage() && (valid ==> idx < |page.keys|)
    }

    ghost predicate Valid()
      reads this
    {
      OnCell() && (valid && leafData ==> page.leaf)
    }

    ghost function Entries(): seq<Key>
      requires Ok(root)
    {
      BtreeTree.Entries(root, leafData)
    }

    /** The number of the entry pointed to. */
    ghost function Position(): nat
      requires OnCell() && valid
      reads this
    {
      Start(path, page, idx, leafData)
    }

    constructor (root: Tree, leafData: bool, intKey: bool)
      requires Ok(root)
      ensures Valid() && !valid && this.root == root && this.leafData == leafData && this.intKey == intKey
    {
      this.root, this.leafData, this.intKey := root, leafData, intKey;
      path, page, idx, valid := [], root, 0, false;
    }

    method MoveToChild()
      requires OnPage() && !page.leaf && idx <= |page.keys|
      modifies this`path, this`page, this`idx
      ensures OnPage() && page == old(page.kids[idx]) && path == old(path) + [Step(old(page), old(idx))]
              && idx == 0 < |page.keys|
      ensures Left(path, leafData) == Left(old(path), leafData) + Before(old(page), old(idx), leafData)
      ensures Right(path, leafData) == After(old(page), old(idx), leafData) + Right(old(path), leafData)
    {
      hide Ok, Reached, StepsOk, Left, Right, Before, After;
      Down(root, path, page, idx, leafData);
      ChildAt(page, idx);
      path := path + [Step(page, idx)];
      page := page.kids[idx];
      idx := 0;
    }

    method MoveToParent()
      requires OnPage() && path != []
      modifies this`path, this`page, this`idx
      ensures OnPage() && path == old(path[..|path| - 1]) && page == old(path[|path| - 1].page)
              && idx == old(path[|path| - 1].idx)
      ensures !page.leaf && idx <= |page.keys| && |page.keys| > 0 && idx < |page.kids| && Ok(page.kids[idx])
              && page.kids[idx] == old(page)
      ensures |Left(old(path), leafData)| == Gap(path, page, idx, leafData)
    {
      hide Ok, Reached, StepsOk, Left, Before;
      Up(root, path, page, leafData);
      var k := |path| - 1;
      ChildAt(path[k].page, path[k].idx);
      page, idx := path[k].page, path[k].idx;
      path := path[..k];
    }

    method MoveToRoot()
      requires OnPage()
      modifies this`path, this`page, this`idx, this`valid
      ensures OnPage() && path == [] && page == root && idx == 0 && valid == (|root.keys| > 0)
    {
      path, page, idx := [], root, 0;
      valid := |page.keys| > 0;
    }

    /** Down to the first entry of the child at the cursor. */
    method MoveToLeftmost()
      requires OnPage() && idx < |page.keys|
      modifies this`path, this`page, this`idx
      ensures OnPage() && page.leaf && idx < |page.keys|
              && Gap(path, page, idx, leafData) == old(Gap(path, page, idx, leafData))
    {
      hide Ok, Reached, StepsOk, Left, Right, Before, After;
      while !page.leaf
        invariant OnPage() && idx < |page.keys| && Gap(path, page, idx, leafData) == old(Gap(path, page, idx, leafData))
        decreases page
      {
        ChildAt(page, idx);
        MoveToChild();
        NoneBefore(page, leafData);
      }
    }

    /** Down to the last entry of the page. */
    method MoveToRightmost()
      requires OnPage() && |page.keys| > 0
      modifies this`path, this`page, this`idx
      ensures OnPage() && page.leaf && idx < |page.keys|
      ensures Gap(path, page, idx, leafData) + 1 == |Left(old(path), leafData)|
              + |BtreeTree.Entries(old(page), leafData)|
    {
      hide Ok, Reached, StepsOk, Left, Right, Before, After, BtreeTree.Entries;
      while !page.leaf
        invariant OnPage() && |page.keys| > 0
        invariant |Left(path, leafData)| + |BtreeTree.Entries(page, leafData)|
                  == |Left(old(path), leafData)| + |BtreeTree.Entries(old(page), leafData)|
        decreases page
      {
        idx := |page.keys|;
        ChildAt(page, idx);
        AllOf(page, leafData);
        MoveToChild();
      }
      idx := |page.keys| - 1;
      LeafBefore(page, idx, leafData);
    }

    /** To the first entry. */
    method First() returns (res: int)
      requires OnPage()
      modifies this`path, this`page, this`idx, this`valid
      ensures Valid() && res == (if Entries() == [] then 1 else 0) && valid == (res == 0)
      ensures valid ==> Position() == 0
    {
      hide Ok, Reached, StepsOk, Before, BtreeTree.Entries;
      MoveToRoot();
      if !valid {
        EmptyRoot(root, leafData);
        return 1;
      }
      SomeEntries(root, leafData);
      NoneBefore(root, leafData);
      MoveToLeftmost();
      res := 0;
    }

    /** To the last entry. */
    method Last() returns (res: int)
      requires OnPage()
      modifies this`path, this`page, this`idx, this`valid
      ensures Valid() && res == (if Entries() == [] then 1 else 0) && valid == (res == 0)
      ensures valid ==> Position() == |Entries()| - 1
    {
      hide Ok, Reached, StepsOk, Before, BtreeTree.Entries;
      MoveToRoot();
      if !valid {
        EmptyRoot(root, leafData);
        return 1;
      }
      SomeEntries(root, leafData);
      MoveToRightmost();
      res := 0;
    }

    /** Entries up to and including the cell, and whatever is below it. */
    ghost function End(): nat
      requires OnCell() && valid
      reads this
    {
      Gap(path, page, idx + 1, leafData)
    }

    /** To the next entry. */
    method Next() returns (res: int)
      requires OnCell()
      modifies this`path, this`page, this`idx, this`valid
      ensures Valid() && valid == (res == 0)
      ensures !old(valid) ==> res == 1
      ensures old(valid) ==> res == (if old(End()) < |Entries()| then 0 else 1) && (valid ==> Position() == old(End()))
      ensures old(Valid() && valid) ==> res == (if old(Position()) + 1 < |Entries()| then 0 else 1)
                                        && (valid ==> Position() == old(Position()) + 1)
      decreases |path|
    {
      hide Ok, Reached, StepsOk, Left, Before, BtreeTree.Entries;
      if !valid {
        return 1;
      }
      ghost var target := End();
      EndFollows(path, page, idx, leafData);
      idx := idx + 1;
      if idx >= |page.keys| {
        if !page.leaf {
          ghost var passed := Left(path, leafData);
          MoveToChild();
          NoneBefore(page, leafData);
          MoveToLeftmost();
          Fits(root, path, page, idx, leafData);
          return 0;
        }
        AllOf(page, leafData);
        while true
          invariant OnPage() && valid && target == |Left(path, leafData)| + |BtreeTree.Entries(page, leafData)|
          invariant path == old(path)[..|path|] && |path| <= |old(path)| && (page.leaf || |path| < |old(path)|)
          decreases |path|
        {
          if path == [] {
            TopAll(root, path, page, leafData);
            valid := false;
            return 1;
          }
          MoveToParent();
          if idx < |page.keys| {
            break;
          }
          AllOf(page, leafData);
        }
        if leafData {
          BeforeNext(page, idx, leafData);
          res := Next();
        } else {
          res := 0;
          Fits(root, path, page, idx, leafData);
        }
        return;
      }
      if !page.leaf {
        MoveToLeftmost();
      }
      Fits(root, path, page, idx, leafData);
      res := 0;
    }

    /** To the previous entry. */
    method Previous() returns (res: int)
      requires OnCell()
      modifies this`path, this`page, this`idx, this`valid
      ensures Valid() && valid == (res == 0)
      ensures !old(valid) ==> res == 1
      ensures old(valid) ==> res == (if old(Position()) > 0 then 0 else 1)
                             && (valid ==> Position() == old(Position()) - 1)
      decreases |path|
    {
      hide Ok, Reached, StepsOk, Left, Before, BtreeTree.Entries;
      if !valid {
        return 1;
      }
      ghost var target := Position();
      if !page.leaf {
        ChildAt(page, idx);
        MoveToChild();
        SomeEntries(page, leafData);
        MoveToRightmost();
        Fits(root, path, page, idx, leafData);
      } else {
        while idx == 0
          invariant OnPage() && valid && idx <= |page.keys| && target == Gap(path, page, idx, leafData)
                    && |page.keys| > 0
          invariant path == old(path)[..|path|] && |path| <= |old(path)|
                    && (page.leaf ==> |path| == |old(path)| && idx < |page.keys|)
          invariant !page.leaf ==> |path| < |old(path)|
          decreases |path|
        {
          NoneBefore(page, leafData);
          if path == [] {
            TopAll(root, path, page, leafData);
            valid := false;
            return 1;
          }
          MoveToParent();
        }
        idx := idx - 1;
        BeforeNext(page, idx, leafData);
        if leafData && !page.leaf {
          ChildAt(page, idx);
          SomeEntries(page.kids[idx], leafData);
          res := Previous();
        } else {
          Fits(root, path, page, idx, leafData);
        }
      }
      res := 0;
    }

    /** Previous undoes Next. */
    method ForthAndBack() returns (there: int, back: int)
      requires Valid() && valid && Position() + 1 < |Entries()|
      modifies this`path, this`page, this`idx, this`valid
      ensures there == 0 && back == 0 && Valid() && valid && path == old(path) && page == old(page) && idx == old(idx)
    {
      hide Ok, Reached, StepsOk, Start, BtreeTree.Entries;
      ghost var path0, page0, idx0 := path, page, idx;
      there := Next();
      back := Previous();
      OnePlace(root, path0, page0, idx0, path, page, idx, leafData);
    }

    /** Next undoes Previous. */
    method BackAndForth() returns (there: int, back: int)
      requires Valid() && valid && Position() > 0
      modifies this`path, this`page, this`idx, this`valid
      ensures there == 0 && back == 0 && Valid() && valid && path == old(path) && page == old(page) && idx == old(idx)
    {
      hide Ok, Reached, StepsOk, Start, BtreeTree.Entries;
      ghost var path0, page0, idx0 := path, page, idx;
      Fits(root, path, page, idx, leafData);
      there := Previous();
      back := Next();
      OnePlace(root, path0, page0, idx0, path, page, idx, leafData);
    }

    /** The comparison of an entry with the key; integer keys are compared here, others by the function given. */
    method Compare(c: Key -> int, key: Key) returns (cc: int)
      ensures (cc < 0 <==> c(key) < 0) && (cc > 0 <==> c(key) > 0)
    {
      cc := c(key);
      if intKey {
        cc := if cc < 0 then -1 else if cc > 0 then 1 else 0;
      }
    }

    /** Look for the key on a page: the first cell that is not less, or the cell with the key; the rightmost cell is
        tried first when asked to. */
    method SearchPage(c: Key -> int, tryRightmost0: bool) returns (lwr: nat, cc: int, found: bool, tryRightmost: bool)
      requires |page.keys| > 0 && forall i, j :: 0 <= i < j < |page.keys| && c(page.keys[i]) >= 0
                                                 ==> c(page.keys[j]) > 0
      modifies this`idx
      ensures idx < |page.keys| && lwr <= |page.keys|
      ensures found ==> c(page.keys[idx]) == 0 && (leafData ==> page.leaf)
      ensures !found ==> (lwr > 0 ==> c(page.keys[lwr - 1]) < 0)
      ensures !found && lwr < |page.keys| ==> c(page.keys[lwr]) > 0
                                              || (c(page.keys[lwr]) == 0 && leafData && !page.leaf)
      ensures !found && page.leaf ==> if cc < 0 then idx == lwr - 1 else cc > 0 && idx == lwr
    {
      var keys := page.keys;
      tryRightmost, found, cc := tryRightmost0, false, -1;
      lwr := 0;
      var upr: int := |keys| - 1;
      idx := 0;
      while lwr <= upr
        invariant lwr <= upr + 1 <= |keys| && idx < |keys|
        invariant lwr > 0 ==> c(keys[lwr - 1]) < 0
        invariant upr + 1 < |keys| ==> c(keys[upr + 1]) > 0
        invariant (lwr == 0 && upr == |keys| - 1) || (cc < 0 && idx == lwr - 1) || (cc > 0 && idx == upr + 1)
        decreases upr - lwr
      {
        idx := (lwr + upr) / 2;
        if intKey && tryRightmost {
          idx := upr;
        }
        cc := Compare(c, keys[idx]);
        if intKey && cc > 0 {
          tryRightmost := false;
        }
        if cc == 0 {
          if leafData && !page.leaf {
            lwr := idx;
            upr := lwr - 1;
            break;
          }
          found := true;
          return;
        }
        if cc < 0 {
          lwr := idx + 1;
        } else {
          upr := idx - 1;
        }
      }
    }

    /** To an entry with the key, or to a neighbour of where it would be, on a leaf. `c` compares an entry with the
        key. */
    method MoveTo(c: Key -> int, ghost lt: (Key, Key) -> bool) returns (res: int)
      requires OnPage() && Sorted(root, lt, leafData) && Agrees(c, lt)
      modifies this`path, this`page, this`idx, this`valid
      ensures Valid() && valid == (Entries() != []) && (!valid ==> res == -1)
      ensures valid ==> Place(root, path, page, idx, leafData) && Position() < |Entries()|
                        && page.keys[idx] == Entries()[Position()]
      ensures (res == 0) == exists x :: x in Entries() && c(x) == 0
      ensures valid && res == 0 ==> c(page.keys[idx]) == 0
      ensures valid && res != 0 ==> page.leaf
      ensures valid && res < 0 ==> forall k :: 0 <= k < |Entries()|
                                               ==> if k <= Position() then c(Entries()[k]) < 0 else c(Entries()[k]) > 0
      ensures valid && res > 0 ==> forall k :: 0 <= k < |Entries()|
                                               ==> if k < Position() then c(Entries()[k]) < 0 else c(Entries()[k]) > 0
    {
      hide Ok, Reached, StepsOk, Left, Right, Before, After, BtreeTree.Entries, Sorted, Agrees;
      MoveToRoot();
      var tryRightmost := intKey;
      if !valid {
        EmptyRoot(root, leafData);
        return -1;
      }
      SomeEntries(root, leafData);
      NothingAround(path, c, leafData);
      while true
        invariant OnPage() && valid && |page.keys| > 0 && Sorted(page, lt, leafData) && Split(path, c, leafData)
        decreases page
      {
        KeysOrdered(page, lt, c, leafData);
        var lwr, cc, found;
        lwr, cc, found, tryRightmost := SearchPage(c, tryRightmost);
        if found {
          EntryAt(root, path, page, idx, leafData);
          return 0;
        }
        if page.leaf {
          EntryAt(root, path, page, idx, leafData);
          Landed(root, path, page, lwr, lt, c, leafData);
          LeafBefore(page, idx, leafData);
          return cc;
        }
        idx := lwr;
        Separated(page, lt, c, lwr, leafData);
        KidSorted(page, lt, lwr, leafData);
        ghost var path0, page0 := path, page;
        MoveToChild();
        StillSplit(path0, page0, lwr, path, c, leafData);
      }
    }
  }

  lemma {:induction false} ChildAt(t: Tree, i: nat)
    requires Ok(t) && !t.leaf && i <= |t.keys|
    ensures i < |t.kids| && Ok(t.kids[i]) && |t.kids[i].keys| > 0
  {}

  lemma {:induction false} EmptyRoot(t: Tree, leafData: bool)
    requires Ok(t) && |t.keys| == 0
    ensures Entries(t, leafData) == []
  {}

  /** In place, the end of a cell is just after its entry. */
  lemma {:induction false} EndFollows(path: seq<Step>, page: Tree, idx: nat, leafData: bool)
    requires StepsOk(path) && Ok(page) && idx < |page.keys|
    ensures (leafData && !page.leaf) || Gap(path, page, idx + 1, leafData) == Start(path, page, idx, leafData) + 1
  {
    hide Left, Before, Entries;
    BeforeNext(page, idx, leafData);
  }

  lemma {:induction false} Fits(root: Tree, path: seq<Step>, page: Tree, idx: nat, leafData: bool)
    requires Ok(root) && Reached(root, path, page) && idx < |page.keys| && (leafData ==> page.leaf) && StepsOk(path)
             && Ok(page)
    ensures Start(path, page, idx, leafData) < |Entries(root, leafData)|
    ensures page.leaf ==> Start(path, page, idx, leafData) == Gap(path, page, idx, leafData)
  {
    EntryAt(root, path, page, idx, leafData);
  }

  lemma {:induction false} TopAll(root: Tree, path: seq<Step>, page: Tree, leafData: bool)
    requires Ok(root) && Reached(root, path, page) && path == [] && StepsOk(path)
    ensures page == root && |Left(path, leafData)| == 0
  {}

  // ------------------------------------------------------------ looking for a key

  /** What is to the left of a page is less than the key looked for, what is to the right greater. */
  ghost predicate Split(path: seq<Step>, c: Key -> int, leafData: bool)
    requires StepsOk(path)
  {
    (forall x :: x in Left(path, leafData) ==> c(x) < 0) && (forall x :: x in Right(path, leafData) ==> c(x) > 0)
  }

  lemma {:induction false} NothingAround(path: seq<Step>, c: Key -> int, leafData: bool)
    requires path == []
    ensures StepsOk(path) && Split(path, c, leafData)
  {}

  lemma {:induction false} StillSplit(path: seq<Step>, page: Tree, n: nat, path': seq<Step>, c: Key -> int,
                                      leafData: bool)
    requires StepsOk(path) && StepsOk(path') && Split(path, c, leafData) && Ok(page) && !page.leaf && n <= |page.keys|
    requires Left(path', leafData) == Left(path, leafData) + Before(page, n, leafData)
    requires Right(path', leafData) == After(page, n, leafData) + Right(path, leafData)
    requires forall x :: x in Before(page, n, leafData) ==> c(x) < 0
    requires forall x :: x in After(page, n, leafData) ==> c(x) > 0
    ensures Split(path', c, leafData)
  {
    hide Left, Right, Before, After;
  }

  lemma {:induction false} KeysOrdered(page: Tree, lt: (Key, Key) -> bool, c: Key -> int, leafData: bool)
    requires Ok(page) && Sorted(page, lt, leafData) && Agrees(c, lt)
    ensures forall i, j :: 0 <= i < j < |page.keys| && c(page.keys[i]) >= 0 ==> c(page.keys[j]) > 0
  {
    forall i, j | 0 <= i < j < |page.keys| && c(page.keys[i]) >= 0 ensures c(page.keys[j]) > 0 {
      assert lt(page.keys[i], page.keys[j]);
    }
  }

  lemma {:induction false} KidSorted(page: Tree, lt: (Key, Key) -> bool, i: nat, leafData: bool)
    requires Ok(page) && Sorted(page, lt, leafData) && !page.leaf && i <= |page.keys|
    ensures i < |page.kids| && Ok(page.kids[i]) && Sorted(page.kids[i], lt, leafData)
  {}

  /** On a leaf, the place where the key would be divides all entries. */
  lemma {:induction false} Landed(root: Tree, path: seq<Step>, page: Tree, n: nat, lt: (Key, Key) -> bool,
                                  c: Key -> int, leafData: bool)
    requires Ok(root) && Reached(root, path, page) && StepsOk(path) && Ok(page) && page.leaf && n <= |page.keys|
    requires Split(path, c, leafData) && Sorted(page, lt, leafData) && Agrees(c, lt)
    requires (n > 0 ==> c(page.keys[n - 1]) < 0) && (n < |page.keys| ==> c(page.keys[n]) > 0)
    ensures var s := Entries(root, leafData);
            && (forall k :: 0 <= k < |s| ==> if k < |Left(path, leafData)| + n then c(s[k]) < 0 else c(s[k]) > 0)
            && (forall x :: x in s ==> c(x) != 0)
  {
    hide Left, Right, Reached, Sorted, Agrees;
    KeysOrdered(page, lt, c, leafData);
    Surrounded(root, path, page, leafData);
    var s, a, b := Entries(root, leafData), Left(path, leafData), Right(path, leafData);
    forall k | 0 <= k < |s| ensures if k < |a| + n then c(s[k]) < 0 else c(s[k]) > 0 {
      if k < |a| {
        assert s[k] == a[k] && a[k] in a;
      } else if k < |a| + |page.keys| {
        assert s[k] == page.keys[k - |a|];
      } else {
        assert s[k] == b[k - |a| - |page.keys|] && s[k] in b;
      }
    }
  }
}
