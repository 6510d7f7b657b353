/** A b-tree as a tree of pages with keys: the entries it has in order, and the places in it. */
module BtreeTree {

  type Key(==, !new)

  /** A page: a leaf, or with a child before each key and one after the last. */
  datatype Tree = Tree(leaf: bool, keys: seq<Key>, kids: seq<Tree>)

  /** Pages are as they should be; only a root that is a leaf may be empty. */
  ghost predicate Ok(t: Tree)
    decreases t
  {
    if t.leaf then t.kids == []
    else |t.keys| > 0 && |t.kids| == |t.keys| + 1
         && forall i :: 0 <= i < |t.kids| ==> Ok(t.kids[i]) && |t.kids[i].keys| > 0
  }

  /** The entries of a page and all below it. In a leaf-data tree the keys of interior pages are none. */
  ghost function Entries(t: Tree, leafData: bool): seq<Key>
    requires Ok(t)
    decreases t, |t.keys| + 1
  {
    if t.leaf then t.keys else Before(t, |t.keys|, leafData) + Entries(t.kids[|t.keys|], leafData)
  }

  ghost function KeyEntry(t: Tree, i: nat, leafData: bool): seq<Key>
    requires i < |t.keys|
  {
    if leafData then [] else [t.keys[i]]
  }

  /** The entries before the `i`-th child, or before the `i`-th entry of a leaf. */
  ghost function Before(t: Tree, i: nat, leafData: bool): seq<Key>
    requires Ok(t) && i <= |t.keys|
    decreases t, i
  {
    if t.leaf then t.keys[..i]
    else if i == 0 then []
    else Before(t, i - 1, leafData) + Entries(t.kids[i - 1], leafData) + KeyEntry(t, i - 1, leafData)
  }

  /** The entries after the `i`-th child. */
  ghost function After(t: Tree, i: nat, leafData: bool): seq<Key>
    requires Ok(t) && !t.leaf && i <= |t.keys|
    decreases |t.keys| - i
  {
    if i == |t.keys| then [] else KeyEntry(t, i, leafData) + Entries(t.kids[i + 1], leafData)
                                  + After(t, i + 1, leafData)
  }

  lemma {:induction false} AroundChild(t: Tree, i: nat, leafData: bool)
    requires Ok(t) && !t.leaf && i <= |t.keys|
    ensures Entries(t, leafData) == Before(t, i, leafData) + Entries(t.kids[i], leafData) + After(t, i, leafData)
    decreases |t.keys| - i
  {
    if i < |t.keys| {
      AroundChild(t, i + 1, leafData);
    }
  }

  lemma {:induction false} SomeEntries(t: Tree, leafData: bool)
    requires Ok(t) && |t.keys| > 0
    ensures |Entries(t, leafData)| > 0
    decreases t
  {
    if !t.leaf {
      SomeEntries(t.kids[|t.keys|], leafData);
    }
  }

  // ------------------------------------------------------------ places

  /** A page and the child of it that is gone down to. */
  datatype Step = Step(page: Tree, idx: nat)

  /** The steps lead from the root to the page. */
  ghost predicate Reached(root: Tree, path: seq<Step>, page: Tree)
    decreases |path|
  {
    if path == [] then page == root
    else
      var k := |path| - 1;
      var s := path[k];
      Reached(root, path[..k], s.page) && !s.page.leaf && s.idx < |s.page.kids| && page == s.page.kids[s.idx]
  }

  ghost predicate StepsOk(path: seq<Step>) {
    forall i :: 0 <= i < |path| ==> Ok(path[i].page) && !path[i].page.leaf && path[i].idx <= |path[i].page.keys|
  }

  lemma {:induction false} ReachedOk(root: Tree, path: seq<Step>, page: Tree)
    requires Ok(root) && Reached(root, path, page)
    ensures Ok(page) && StepsOk(path) && (path != [] ==> |page.keys| > 0)
    decreases |path|
  {
    if path != [] {
      ReachedOk(root, path[..|path| - 1], path[|path| - 1].page);
    }
  }

  /** The entries before the page the steps lead to. */
  ghost function Left(path: seq<Step>, leafData: bool): seq<Key>
    requires StepsOk(path)
  {
    if path == [] then []
    else Left(path[..|path| - 1], leafData) + Before(path[|path| - 1].page, path[|path| - 1].idx, leafData)
  }

  /** The entries after that page. */
  ghost function Right(path: seq<Step>, leafData: bool): seq<Key>
    requires StepsOk(path)
  {
    if path == [] then []
    else After(path[|path| - 1].page, path[|path| - 1].idx, leafData) + Right(path[..|path| - 1], leafData)
  }

  lemma {:induction false} Surrounded(root: Tree, path: seq<Step>, page: Tree, leafData: bool)
    requires Ok(root) && Reached(root, path, page) && StepsOk(path) && Ok(page)
    ensures Entries(root, leafData) == Left(path, leafData) + Entries(page, leafData) + Right(path, leafData)
    decreases |path|
  {
    hide Entries, Before, After;
    if path != [] {
      var k := |path| - 1;
      ReachedOk(root, path[..k], path[k].page);
      Surrounded(root, path[..k], path[k].page, leafData);
      AroundChild(path[k].page, path[k].idx, leafData);
    }
  }

  /** Entries up to and including cell `idx`. */
  ghost function Start(path: seq<Step>, page: Tree, idx: nat, leafData: bool): nat
    requires StepsOk(path) && Ok(page) && idx < |page.keys|
  {
    |Left(path, leafData)| + |Before(page, idx, leafData)| + if page.leaf then 0
                                                             else |Entries(page.kids[idx], leafData)|
  }

  /** A place for a cursor: a cell of a page of the tree, in a leaf-data tree of a leaf. */
  ghost predicate Place(root: Tree, path: seq<Step>, page: Tree, idx: nat, leafData: bool) {
    Ok(root) && Reached(root, path, page) && idx < |page.keys| && (leafData ==> page.leaf)
  }

  /** The cell at a place is the entry of that number. */
  lemma {:induction false} EntryAt(root: Tree, path: seq<Step>, page: Tree, idx: nat, leafData: bool)
    requires Place(root, path, page, idx, leafData)
    ensures StepsOk(path) && Ok(page)
    ensures Start(path, page, idx, leafData) < |Entries(root, leafData)|
    ensures Entries(root, leafData)[Start(path, page, idx, leafData)] == page.keys[idx]
  {
    hide Left, Right, Before, After, Entries;
    ReachedOk(root, path, page);
    Surrounded(root, path, page, leafData);
    InPage(page, idx, leafData);
  }

  lemma {:induction false} InPage(page: Tree, idx: nat, leafData: bool)
    requires Ok(page) && idx < |page.keys| && (leafData ==> page.leaf)
    ensures var s := |Before(page, idx, leafData)| + if page.leaf then 0 else |Entries(page.kids[idx], leafData)|;
            s < |Entries(page, leafData)| && Entries(page, leafData)[s] == page.keys[idx]
  {
    if !page.leaf {
      AroundChild(page, idx, leafData);
      hide Entries, Before;
    }
  }

  // ------------------------------------------------------------ one place for each entry

  lemma {:induction false} BeforeGrows(t: Tree, i: nat, j: nat, leafData: bool)
    requires Ok(t) && !t.leaf && i < j <= |t.keys|
    ensures |Before(t, j, leafData)| >= |Before(t, i, leafData)| + |Entries(t.kids[i], leafData)|
            + if leafData then 0 else 1
    decreases j
  {
    hide Entries;
    if i < j - 1 {
      BeforeGrows(t, i, j - 1, leafData);
    }
  }

  /** The same steps, from the top. */
  lemma {:induction false} FromTop(root: Tree, path: seq<Step>, page: Tree, leafData: bool)
    requires Ok(root) && Reached(root, path, page) && path != []
    ensures var i := path[0].idx;
            && path[0].page == root && !root.leaf && i <= |root.keys| && Reached(root.kids[i], path[1..], page)
            && StepsOk(path) && StepsOk(path[1..]) && Left(path, leafData)
               == Before(root, i, leafData) + Left(path[1..], leafData)
    decreases |path|
  {
    hide Before;
    ReachedOk(root, path, page);
    var k := |path| - 1;
    if k == 0 {
      assert path[..0] == [] && path[1..] == [];
      assert Left(path[..0], leafData) == [];
    } else {
      var front := path[..k];
      FromTop(root, front, path[k].page, leafData);
      assert path[1..][..k - 1] == front[1..];
    }
  }

  /** A place below child `j` has an entry of that child. */
  lemma {:induction false} WithinChild(root: Tree, path: seq<Step>, page: Tree, idx: nat, leafData: bool)
    requires Place(root, path, page, idx, leafData) && path != [] && StepsOk(path) && Ok(page)
    ensures var j := path[0].idx;
            && path[0].page == root && !root.leaf && j <= |root.keys|
               && Place(root.kids[j], path[1..], page, idx, leafData) && StepsOk(path[1..])
            && Start(path, page, idx, leafData) == |Before(root, j, leafData)| + Start(path[1..], page, idx, leafData)
            && Start(path[1..], page, idx, leafData) < |Entries(root.kids[j], leafData)|
  {
    hide Before, Entries;
    FromTop(root, path, page, leafData);
    EntryAt(root.kids[path[0].idx], path[1..], page, idx, leafData);
  }

  /** No two places have the same entry. */
  lemma {:induction false} OnePlace(root: Tree, p: seq<Step>, pg: Tree, i: nat, p': seq<Step>, pg': Tree, i': nat,
                                    leafData: bool)
    requires Place(root, p, pg, i, leafData) && Place(root, p', pg', i', leafData)
    requires StepsOk(p) && StepsOk(p') && Ok(pg) && Ok(pg') && Start(p, pg, i, leafData) == Start(p', pg', i', leafData)
    ensures p == p' && pg == pg' && i == i'
    decreases root
  {
    hide Before, Entries;
    if p != [] {
      WithinChild(root, p, pg, i, leafData);
    }
    if p' != [] {
      WithinChild(root, p', pg', i', leafData);
    }
    if p != [] && p' != [] {
      if p[0].idx == p'[0].idx {
        OnePlace(root.kids[p[0].idx], p[1..], pg, i, p'[1..], pg', i', leafData);
        assert p == [p[0]] + p[1..] && p' == [p'[0]] + p'[1..];
      } else {
        ApartBelow(root, p[0].idx, p'[0].idx, leafData);
      }
    } else if p != [] {
      ApartFrom(root, i', p[0].idx, leafData);
    } else if p' != [] {
      ApartFrom(root, i, p'[0].idx, leafData);
    } else {
      ApartHere(root, i, i', leafData);
    }
  }

  lemma {:induction false} ApartBelow(t: Tree, j: nat, j': nat, leafData: bool)
    requires Ok(t) && !t.leaf && j <= |t.keys| && j' <= |t.keys| && j != j'
    ensures j < j' ==> |Before(t, j', leafData)| >= |Before(t, j, leafData)| + |Entries(t.kids[j], leafData)|
    ensures j' < j ==> |Before(t, j, leafData)| >= |Before(t, j', leafData)| + |Entries(t.kids[j'], leafData)|
  {
    BeforeGrows(t, if j < j' then j else j', if j < j' then j' else j, leafData);
  }

  lemma {:induction false} ApartFrom(t: Tree, i: nat, j: nat, leafData: bool)
    requires Ok(t) && !t.leaf && i < |t.keys| && j <= |t.keys| && !leafData
    ensures var s := |Before(t, i, leafData)| + |Entries(t.kids[i], leafData)|;
            if j <= i then |Before(t, j, leafData)| + |Entries(t.kids[j], leafData)| <= s
            else |Before(t, j, leafData)| > s
  {
    hide Before, Entries;
    if i < j {
      BeforeGrows(t, i, j, leafData);
    } else if j < i {
      BeforeGrows(t, j, i, leafData);
    }
  }

  lemma {:induction false} ApartHere(t: Tree, i: nat, i': nat, leafData: bool)
    requires Place(t, [], t, i, leafData) && Place(t, [], t, i', leafData)
             && Start([], t, i, leafData) == Start([], t, i', leafData)
    ensures i == i'
  {
    if !t.leaf {
      hide Before, Entries;
      if i < i' {
        BeforeGrows(t, i, i', leafData);
      } else if i' < i {
        BeforeGrows(t, i', i, leafData);
      }
    }
  }

  // ------------------------------------------------------------ order

  /** Pages sorted by a strict order: every key after what is to its left and before what is to its right. In a
      leaf-data tree it may also be the last entry to its left. */
  ghost predicate Sorted(t: Tree, lt: (Key, Key) -> bool, leafData: bool)
    requires Ok(t)
    decreases t
  {
    && (forall i, j :: 0 <= i < j < |t.keys| ==> lt(t.keys[i], t.keys[j]))
    && (!t.leaf ==>
          && (forall i :: 0 <= i <= |t.keys| ==> Sorted(t.kids[i], lt, leafData))
          && (forall i, x :: 0 <= i < |t.keys| && x in Entries(t.kids[i], leafData)
                             ==> lt(x, t.keys[i]) || (leafData && x == t.keys[i]))
          && (forall i, x :: 0 <= i < |t.keys| && x in Entries(t.kids[i + 1], leafData) ==> lt(t.keys[i], x)))
  }

  ghost predicate Increasing(s: seq<Key>, lt: (Key, Key) -> bool) {
    forall i, j :: 0 <= i < j < |s| ==> lt(s[i], s[j])
  }

  ghost predicate Transitive(lt: (Key, Key) -> bool) {
    forall x, y, z :: lt(x, y) && lt(y, z) ==> lt(x, z)
  }

  ghost predicate AllBelow(a: seq<Key>, b: seq<Key>, lt: (Key, Key) -> bool) {
    forall x, y :: x in a && y in b ==> lt(x, y)
  }

  lemma {:induction false} IncreasingJoin(a: seq<Key>, b: seq<Key>, lt: (Key, Key) -> bool)
    requires Increasing(a, lt) && Increasing(b, lt) && AllBelow(a, b, lt)
    ensures Increasing(a + b, lt)
  {}

  /** An in-order walk of a sorted tree meets its entries in ascending order. */
  lemma {:induction false} EntriesAscend(t: Tree, lt: (Key, Key) -> bool, leafData: bool)
    requires Ok(t) && Sorted(t, lt, leafData) && Transitive(lt)
    ensures Increasing(Entries(t, leafData), lt)
    decreases t, |t.keys| + 1
  {
    hide Before, Transitive;
    if !t.leaf {
      var n := |t.keys|;
      BeforeAscends(t, n, lt, leafData);
      EntriesAscend(t.kids[n], lt, leafData);
      hide Entries, Sorted, Increasing;
      NextChildAbove(t, n, lt, leafData);
      IncreasingJoin(Before(t, n, leafData), Entries(t.kids[n], leafData), lt);
      LastChild(t, leafData);
    }
  }

  lemma {:induction false} LastChild(t: Tree, leafData: bool)
    requires Ok(t) && !t.leaf
    ensures Entries(t, leafData) == Before(t, |t.keys|, leafData) + Entries(t.kids[|t.keys|], leafData)
  {}

  /** What is before a child is at most the key there, and so below that child. */
  lemma {:induction false} NextChildAbove(t: Tree, i: nat, lt: (Key, Key) -> bool, leafData: bool)
    requires Ok(t) && Sorted(t, lt, leafData) && Transitive(lt) && !t.leaf && i <= |t.keys|
             && AtMostKey(t, i, lt, leafData)
    ensures AllBelow(Before(t, i, leafData), Entries(t.kids[i], leafData), lt)
  {
    hide Entries;
    if i == 0 {
      assert Before(t, 0, leafData) == [];
    } else {
      hide Before;
      var k := i - 1;
      forall x, y | x in Before(t, i, leafData) && y in Entries(t.kids[i], leafData) ensures lt(x, y) {
        assert lt(t.keys[k], y);
        assert lt(x, t.keys[k]) || x == t.keys[k];
      }
    }
  }

  ghost predicate AtMostKey(t: Tree, i: nat, lt: (Key, Key) -> bool, leafData: bool)
    requires Ok(t) && i <= |t.keys|
  {
    i > 0 ==> forall x :: x in Before(t, i, leafData) ==> lt(x, t.keys[i - 1]) || x == t.keys[i - 1]
  }

  lemma {:induction false} BeforeAscends(t: Tree, i: nat, lt: (Key, Key) -> bool, leafData: bool)
    requires Ok(t) && Sorted(t, lt, leafData) && Transitive(lt) && !t.leaf && i <= |t.keys|
    ensures Increasing(Before(t, i, leafData), lt) && AtMostKey(t, i, lt, leafData)
    decreases t, i
  {
    if i > 0 {
      var k := i - 1;
      BeforeAscends(t, k, lt, leafData);
      EntriesAscend(t.kids[k], lt, leafData);
      NextChildAbove(t, k, lt, leafData);
      ChildAtMost(t, k, lt, leafData);
      hide Entries, Sorted, Increasing, KeyEntry, AtMostKey;
      var b, e, key := Before(t, k, leafData), Entries(t.kids[k], leafData), KeyEntry(t, k, leafData);
      IncreasingJoin(b, e, lt);
      OneIncreases(t, k, lt, leafData);
      IncreasingJoin(b + e, key, lt);
    }
  }

  lemma {:induction false} OneIncreases(t: Tree, i: nat, lt: (Key, Key) -> bool, leafData: bool)
    requires i < |t.keys|
    ensures Increasing(KeyEntry(t, i, leafData), lt)
  {}

  lemma {:induction false} ChildAtMost(t: Tree, k: nat, lt: (Key, Key) -> bool, leafData: bool)
    requires Ok(t) && Sorted(t, lt, leafData) && Transitive(lt) && !t.leaf && k < |t.keys|
             && AtMostKey(t, k, lt, leafData)
    ensures AllBelow(Before(t, k, leafData) + Entries(t.kids[k], leafData), KeyEntry(t, k, leafData), lt)
    ensures AtMostKey(t, k + 1, lt, leafData)
  {
    hide Entries;
    var b, e := Before(t, k, leafData), Entries(t.kids[k], leafData);
    assert Before(t, k + 1, leafData) == b + e + KeyEntry(t, k, leafData);
    assert k == 0 ==> b == [];
    hide Before;
    forall x | x in b + e ensures lt(x, t.keys[k]) || (leafData && x == t.keys[k]) {
      if x in b {
        assert lt(t.keys[k - 1], t.keys[k]);
        assert lt(x, t.keys[k - 1]) || x == t.keys[k - 1];
      }
    }
  }

  /** A comparison with the key that is looked for: from a key that is not less on, keys are greater. */
  ghost predicate Agrees(c: Key -> int, lt: (Key, Key) -> bool) {
    forall x, y :: lt(x, y) && c(x) >= 0 ==> c(y) > 0
  }

  /** The `n`-th key is the first that is not less than the one looked for: everything to its left is less; what is
      to the right of the place where to look is greater. */
  lemma {:induction false} Separated(t: Tree, lt: (Key, Key) -> bool, c: Key -> int, n: nat, leafData: bool)
    requires Ok(t) && !t.leaf && Sorted(t, lt, leafData) && Agrees(c, lt) && n <= |t.keys|
    requires n > 0 ==> c(t.keys[n - 1]) < 0
    requires n < |t.keys| ==> c(t.keys[n]) > 0 || (leafData && c(t.keys[n]) == 0)
    ensures forall x :: x in Before(t, n, leafData) ==> c(x) < 0
    ensures forall x :: x in After(t, n, leafData) ==> c(x) > 0
  {
    hide Entries;
    SmallBefore(t, lt, c, n, n, leafData);
    LargeAfter(t, lt, c, n, n, leafData);
  }

  lemma {:induction false} SmallBefore(t: Tree, lt: (Key, Key) -> bool, c: Key -> int, n: nat, i: nat, leafData: bool)
    requires Ok(t) && !t.leaf && Sorted(t, lt, leafData) && Agrees(c, lt) && i <= n <= |t.keys|
             && (n > 0 ==> c(t.keys[n - 1]) < 0)
    ensures forall x :: x in Before(t, i, leafData) ==> c(x) < 0
    decreases i
  {
    hide Entries, Sorted;
    if i > 0 {
      SmallBefore(t, lt, c, n, i - 1, leafData);
      ChildLess(t, lt, c, n, i - 1, leafData);
    }
  }

  lemma {:induction false} ChildLess(t: Tree, lt: (Key, Key) -> bool, c: Key -> int, n: nat, i: nat, leafData: bool)
    requires Ok(t) && !t.leaf && Sorted(t, lt, leafData) && Agrees(c, lt) && i < n <= |t.keys| && c(t.keys[n - 1]) < 0
    ensures c(t.keys[i]) < 0 && forall x :: x in Entries(t.kids[i], leafData) ==> c(x) < 0
  {
    hide Entries;
    if i < n - 1 {
      assert lt(t.keys[i], t.keys[n - 1]);
    }
    forall x | x in Entries(t.kids[i], leafData) ensures c(x) < 0 {
      assert lt(x, t.keys[i]) || x == t.keys[i];
    }
  }

  lemma {:induction false} LargeAfter(t: Tree, lt: (Key, Key) -> bool, c: Key -> int, n: nat, i: nat, leafData: bool)
    requires Ok(t) && !t.leaf && Sorted(t, lt, leafData) && Agrees(c, lt) && n <= i <= |t.keys|
    requires n < |t.keys| ==> c(t.keys[n]) > 0 || (leafData && c(t.keys[n]) == 0)
    ensures forall x :: x in After(t, i, leafData) ==> c(x) > 0
    decreases |t.keys| - i
  {
    hide Entries, Sorted;
    if i < |t.keys| {
      LargeAfter(t, lt, c, n, i + 1, leafData);
      ChildGreater(t, lt, c, n, i, leafData);
    }
  }

  lemma {:induction false} ChildGreater(t: Tree, lt: (Key, Key) -> bool, c: Key -> int, n: nat, i: nat, leafData: bool)
    requires Ok(t) && !t.leaf && Sorted(t, lt, leafData) && Agrees(c, lt) && n <= i < |t.keys|
    requires c(t.keys[n]) > 0 || (leafData && c(t.keys[n]) == 0)
    ensures c(t.keys[i]) > 0 || leafData
    ensures forall x :: x in Entries(t.kids[i + 1], leafData) ==> c(x) > 0
  {
    hide Entries;
    if n < i {
      assert lt(t.keys[n], t.keys[i]);
    }
    forall x | x in Entries(t.kids[i + 1], leafData) ensures c(x) > 0 {
      assert lt(t.keys[i], x);
    }
  }
}
