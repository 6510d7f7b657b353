/** The hash table: every element is on one doubly linked list, and every bucket is a run of
    consecutive elements of that list. */
module HashTable {
  import opened Basics

  class HashElem<K, V> {
    const pKey: K
    var data: V
    var next: HashElem?<K, V>
    var prev: HashElem?<K, V>

    constructor (pKey: K, data: V)
      ensures this.pKey == pKey && this.data == data
    {
      this.pKey, this.data := pKey, data;
      next, prev := null, null;
    }
  }

  /** struct _ht: how many elements have this hash, and the first of them. */
  datatype Bucket<K, V> = Bucket(count: nat, chain: HashElem?<K, V>)

  /** Keys are compared in a normal form, which alone determines the hash. */
  datatype KeyClass<!K, !N> = KeyClass(norm: K -> N, hash: N -> nat) {
    function Index(key: K, size: nat): (h: nat)
      requires size > 0
      ensures h < size
    {
      hash(norm(key)) % size
    }
  }

  ghost predicate PowerOfTwo(n: nat) {
    n == 1 || (n > 0 && n % 2 == 0 && PowerOfTwo(n / 2))
  }

  // ------------------------------------------------------------ runs

  /** Bucket `b` is a run of the list, and holds just the elements with its hash. */
  ghost predicate Run<K, N, V>(kc: KeyClass<K, N>, ht: seq<Bucket<K, V>>, list: seq<HashElem<K, V>>, starts: seq<nat>,
                               b: nat)
    requires b < |ht| == |starts|
  {
    var s, n := starts[b], ht[b].count;
    && s + n <= |list|
    && ht[b].chain == (if n > 0 then list[s] else null)
    && forall i :: 0 <= i < |list| ==> (kc.Index(list[i].pKey, |ht|) == b <==> s <= i < s + n)
  }

  ghost predicate Runs<K, N, V>(kc: KeyClass<K, N>, ht: seq<Bucket<K, V>>, list: seq<HashElem<K, V>>,
                                starts: seq<nat>) {
    |ht| == |starts| > 0 && forall b :: 0 <= b < |ht| ==> Run(kc, ht, list, starts, b)
  }

  /** Where a new element of bucket `b` goes: before the others, or to the front of the list. */
  ghost function Place<K, V>(ht: seq<Bucket<K, V>>, starts: seq<nat>, b: nat): nat
    requires b < |ht| == |starts|
  {
    if ht[b].count > 0 then starts[b] else 0
  }

  ghost function Shifted(starts: seq<nat>, b: nat, p: nat): (r: seq<nat>)
    requires b < |starts|
    ensures |r| == |starts|
    ensures forall c :: 0 <= c < |r| ==>
              r[c] == if c == b then p else if starts[c] >= p then starts[c] + 1 else starts[c]
  {
    seq(|starts|, c requires 0 <= c < |starts| =>
      if c == b then p else if starts[c] >= p then starts[c] + 1 else starts[c])
  }

  ghost function Lowered(starts: seq<nat>, k: nat): (r: seq<nat>)
    ensures |r| == |starts|
    ensures forall c :: 0 <= c < |r| ==> r[c] == if starts[c] > k then starts[c] - 1 else starts[c]
  {
    seq(|starts|, c requires 0 <= c < |starts| => if starts[c] > k then starts[c] - 1 else starts[c])
  }

  ghost function Next<K, V>(list: seq<HashElem<K, V>>, k: int): HashElem?<K, V> {
    if 0 <= k + 1 < |list| then list[k + 1] else null
  }

  lemma {:induction false} RunInserted<K, N, V>(kc: KeyClass<K, N>, ht: seq<Bucket<K, V>>, list: seq<HashElem<K, V>>,
                                                starts: seq<nat>, b: nat, x: HashElem<K, V>, c: nat)
    requires Runs(kc, ht, list, starts) && b < |ht| && kc.Index(x.pKey, |ht|) == b && c < |ht|
    ensures Place(ht, starts, b) <= |list|
    ensures var p := Place(ht, starts, b);
            Run(kc, ht[b := Bucket(ht[b].count + 1, x)], InsertAt(list, p, x), Shifted(starts, b, p), c)
  {
    var p := Place(ht, starts, b);
    assert Run(kc, ht, list, starts, b) && Run(kc, ht, list, starts, c);
    var more := InsertAt(list, p, x);
    var s, n := starts[c], ht[c].count;
    if c != b && n > 0 && p > 0 {
      assert kc.Index(list[p].pKey, |ht|) == b;
      assert kc.Index(list[s].pKey, |ht|) == c;
      assert !(s <= p < s + n);
    }
    forall i | 0 <= i < |more|
      ensures kc.Index(more[i].pKey, |ht|) == c <==>
                if c == b then p <= i < p + ht[b].count + 1
                else Shifted(starts, b, p)[c] <= i < Shifted(starts, b, p)[c] + n
    {
      if i != p {
        var j := if i < p then i else i - 1;
        assert more[i] == list[j];
        assert kc.Index(list[j].pKey, |ht|) == c <==> s <= j < s + n;
      }
    }
  }

  lemma {:induction false} RunsInserted<K, N, V>(kc: KeyClass<K, N>, ht: seq<Bucket<K, V>>, list: seq<HashElem<K, V>>,
                                                 starts: seq<nat>, b: nat, x: HashElem<K, V>)
    requires Runs(kc, ht, list, starts) && b < |ht| && kc.Index(x.pKey, |ht|) == b
    ensures var p := Place(ht, starts, b);
            && p <= |list| && Runs(kc, ht[b := Bucket(ht[b].count + 1, x)], InsertAt(list, p, x), Shifted(starts, b, p))
            && ht[b].chain == (if ht[b].count > 0 then Next(list, p - 1) else null) && (ht[b].count > 0 ==> p < |list|)
  {
    hide Run;
    var p := Place(ht, starts, b);
    BucketChain(kc, ht, list, starts, b);
    var more, starts' := ht[b := Bucket(ht[b].count + 1, x)], Shifted(starts, b, p);
    forall c | 0 <= c < |more| ensures Run(kc, more, InsertAt(list, p, x), starts', c) {
      RunInserted(kc, ht, list, starts, b, x, c);
    }
  }

  lemma {:induction false} BucketChain<K, N, V>(kc: KeyClass<K, N>, ht: seq<Bucket<K, V>>, list: seq<HashElem<K, V>>,
                                                starts: seq<nat>, b: nat)
    requires Runs(kc, ht, list, starts) && b < |ht|
    ensures var p := Place(ht, starts, b);
            p <= |list| && ht[b].chain == (if ht[b].count > 0 then Next(list, p - 1) else null)
            && (ht[b].count > 0 ==> p < |list|)
  {
    assert Run(kc, ht, list, starts, b);
  }

  /** All elements with a key are in the bucket with its hash. */
  lemma {:induction false} InBucket<K, N, V>(kc: KeyClass<K, N>, ht: seq<Bucket<K, V>>, list: seq<HashElem<K, V>>,
                                             starts: seq<nat>, pKey: K, h: nat)
    requires Runs(kc, ht, list, starts) && h == kc.Index(pKey, |ht|)
    ensures h < |ht| == |starts| && starts[h] + ht[h].count <= |list|
    ensures var s: int := starts[h]; ht[h].chain == if ht[h].count > 0 then Next(list, s - 1) else null
    ensures forall i :: 0 <= i < |list| && kc.norm(list[i].pKey) == kc.norm(pKey)
                        ==> starts[h] <= i < starts[h] + ht[h].count
  {
    assert Run(kc, ht, list, starts, h);
    assert forall i :: 0 <= i < |list| && kc.norm(list[i].pKey) == kc.norm(pKey) ==> kc.Index(list[i].pKey, |ht|) == h;
  }

  lemma {:induction false} RunRemoved<K, N, V>(kc: KeyClass<K, N>, ht: seq<Bucket<K, V>>, list: seq<HashElem<K, V>>,
                                               starts: seq<nat>, k: nat, c: nat)
    requires Runs(kc, ht, list, starts) && k < |list| && c < |ht|
    ensures var b := kc.Index(list[k].pKey, |ht|);
            ht[b].count > 0 &&
            var chain := if ht[b].count == 1 then null else if k == starts[b] then Next(list, k) else ht[b].chain;
            Run(kc, ht[b := Bucket(ht[b].count - 1, chain)], RemoveAt(list, k), Lowered(starts, k), c)
  {
    var b := kc.Index(list[k].pKey, |ht|);
    assert Run(kc, ht, list, starts, b) && Run(kc, ht, list, starts, c);
    var less := RemoveAt(list, k);
    var s, n := starts[c], ht[c].count;
    assert starts[b] <= k < starts[b] + ht[b].count;
    forall i | 0 <= i < |less|
      ensures kc.Index(less[i].pKey, |ht|) == c <==>
                Lowered(starts, k)[c] <= i < Lowered(starts, k)[c] + (if c == b then n - 1 else n)
    {
      var j := if i < k then i else i + 1;
      assert kc.Index(list[j].pKey, |ht|) == c <==> s <= j < s + n;
    }
  }

  // ------------------------------------------------------------ links

  ghost predicate Distinct<T>(list: seq<T>) {
    forall i, j :: 0 <= i < j < |list| ==> list[i] != list[j]
  }

  /** One element of the list, with its neighbours. */
  ghost predicate LinkedAt<K, V>(list: seq<HashElem<K, V>>, i: nat)
    requires i < |list|
    reads list[i]
  {
    list[i].next == Next(list, i) && list[i].prev == Next(list, i - 2)
  }

  /** The list, linked both ways. */
  ghost predicate Linked<K, V>(list: seq<HashElem<K, V>>, first: HashElem?<K, V>)
    reads list
  {
    Distinct(list) && first == Next(list, -1) && forall i :: 0 <= i < |list| ==> LinkedAt(list, i)
  }

  lemma {:induction false} DistinctInserted<T>(list: seq<T>, p: nat, x: T)
    requires p <= |list| && Distinct(list) && x !in list
    ensures Distinct(InsertAt(list, p, x))
  {
    var more := InsertAt(list, p, x);
    forall i, j | 0 <= i < j < |more| ensures more[i] != more[j] {
      if i != p && j != p {
        assert list[if i < p then i else i - 1] != list[if j < p then j else j - 1];
      }
    }
  }

  /** The entries: for each normal form the key as first inserted, and the data. */
  ghost predicate Holds<K, N, V>(kc: KeyClass<K, N>, list: seq<HashElem<K, V>>, content: map<N, (K, V)>)
    reads list
  {
    && (forall e :: e in list ==> kc.norm(e.pKey) in content && content[kc.norm(e.pKey)] == (e.pKey, e.data))
    && (forall e, f :: e in list && f in list && kc.norm(e.pKey) == kc.norm(f.pKey) ==> e == f)
    && (forall n :: n in content ==> Keyed(kc, list, n))
  }

  ghost predicate Keyed<K, N, V>(kc: KeyClass<K, N>, list: seq<HashElem<K, V>>, n: N) {
    exists e :: e in list && kc.norm(e.pKey) == n
  }

  class Hash<!K, !N(==), V> {
    const kc: KeyClass<K, N>
    var count: nat
    var first: HashElem?<K, V>
    var htsize: nat
    var ht: array?<Bucket<K, V>>

    ghost var list: seq<HashElem<K, V>>
    ghost var starts: seq<nat>
    ghost var content: map<N, (K, V)>

    /** The table and the list agree. */
    ghost predicate Sound()
      reads this, list, ht
    {
      && ht != null && htsize == ht.Length > 0 && PowerOfTwo(htsize)
      && Linked(list, first) && Runs(kc, ht[..], list, starts)
    }

    ghost predicate Valid()
      reads this, list, ht
    {
      Settled(content)
    }

    constructor (kc: KeyClass<K, N>)
      ensures Valid() && content == map[] && this.kc == kc
    {
      this.kc := kc;
      first, count, htsize, ht := null, 0, 0, null;
      list, starts, content := [], [], map[];
    }

    /** Link an element in before `pHead`, or in front of the list. */
    method Splice(pHead: HashElem?<K, V>, pNew: HashElem<K, V>, ghost p: nat)
      requires Linked(list, first) && pNew !in list && p <= |list|
      requires if pHead == null then p == 0 else p < |list| && pHead == list[p]
      modifies this`first, pNew, set e | e in list
      ensures Linked(InsertAt(list, p, pNew), first)
      ensures pNew.data == old(pNew.data) && forall e :: e in list ==> e.data == old(e.data)
    {
      hide InsertAt, Distinct;
      ghost var more := InsertAt(list, p, pNew);
      DistinctInserted(list, p, pNew);
      assert p < |list| ==> LinkedAt(list, p);
      if pHead != null {
        pNew.next := pHead;
        pNew.prev := pHead.prev;
        if pHead.prev != null {
          assert pHead.prev == list[p - 1];
          pHead.prev.next := pNew;
        } else {
          first := pNew;
        }
        pHead.prev := pNew;
      } else {
        pNew.next := first;
        if first != null {
          first.prev := pNew;
        }
        pNew.prev := null;
        first := pNew;
      }
      forall i | 0 <= i < |more| ensures LinkedAt(more, i) {
        InsertedAt(list, p, pNew, i);
        if i != p {
          assert old(LinkedAt(list, if i < p then i else i - 1));
          DistinctAt(list, if i < p then i else i - 1, p);
        }
      }
      InsertedAt(list, p, pNew, 0);
    }

    /** Link an element into the list and into its bucket. */
    method InsertElement(b: nat, pNew: HashElem<K, V>)
      requires Sound() && b < htsize && kc.Index(pNew.pKey, htsize) == b && pNew !in list
      modifies this`first, this`list, this`starts, ht, pNew, set e | e in list
      ensures Sound() && ht == old(ht) && pNew.data == old(pNew.data)
      ensures |list| == |old(list)| + 1 && forall e :: e in list <==> e in old(list) || e == pNew
      ensures forall e :: e in old(list) ==> e.data == old(e.data)
    {
      hide Run, Linked, InsertAt;
      ghost var p, was, table := Place(ht[..], starts, b), list, ht[..];
      RunsInserted(kc, table, was, starts, b, pNew);
      Splice(ht[b].chain, pNew, p);
      ht[b] := Bucket(ht[b].count + 1, pNew);
      assert ht[..] == table[b := Bucket(table[b].count + 1, pNew)];
      MembersInserted(was, p, pNew);
      list, starts := InsertAt(was, p, pNew), Shifted(starts, b, p);
    }

    /** Move every element to a table of another size, along the list that the moving rebuilds. */
    method Rehash(newSize: nat)
      requires PowerOfTwo(newSize) && newSize > 0
      requires Linked(list, first)
      modifies this`first, this`list, this`starts, this`ht, this`htsize, set e | e in list
      ensures Sound() && fresh(ht) && htsize == newSize
      ensures |list| == |old(list)| && forall e :: e in list <==> e in old(list)
      ensures forall e :: e in list ==> e.data == old(e.data)
    {
      hide Run, Linked, Distinct;
      ghost var was := list;
      LinkedFacts(was, first);
      ht := new Bucket<K, V>[newSize](_ => Bucket(0, null));
      htsize := newSize;
      var elem := first;
      first, list, starts := null, [], seq(newSize, _ => 0);
      NoRuns(kc, ht[..], starts);
      NothingLinked<K, V>();
      ghost var i := 0;
      ghost var table := ht;
      while elem != null
        invariant 0 <= i <= |was| && elem == Next(was, i - 1) && |list| == i
        invariant fresh(ht) && htsize == newSize && Sound()
        invariant forall e :: e in list <==> e in was[..i]
        invariant forall j :: i <= j < |was| ==> was[j].next == Next(was, j)
        invariant forall e :: e in was ==> e.data == old(e.data)
        decreases |was| - i
      {
        assert elem == was[i];
        NotBefore(was, i);
        OneMore(was, i);
        var h := kc.Index(elem.pKey, newSize);
        var nextElem := elem.next;
        InsertElement(h, elem);
        elem := nextElem;
        i := i + 1;
      }
      assert was[..i] == was;
    }

    /** Unlink the `k`-th element of the list. */
    method Unlink(elem: HashElem<K, V>, ghost k: nat)
      requires Linked(list, first) && k < |list| && elem == list[k]
      modifies this`first, set e | e in list
      ensures Linked(RemoveAt(list, k), first)
      ensures elem.next == old(elem.next) && forall e :: e in list ==> e.data == old(e.data)
    {
      hide RemoveAt, Distinct;
      ghost var less := RemoveAt(list, k);
      DistinctRemoved(list, k);
      assert LinkedAt(list, k);
      if elem.prev != null {
        elem.prev.next := elem.next;
      } else {
        first := elem.next;
      }
      if elem.next != null {
        elem.next.prev := elem.prev;
      }
      forall i | 0 <= i < |less| ensures LinkedAt(less, i) {
        RemovedAt(list, k, i);
        ghost var j := if i < k then i else i + 1;
        assert old(LinkedAt(list, j));
        DistinctAt(list, j, k);
        if k + 1 < |list| {
          DistinctAt(list, j, k + 1);
        }
      }
      FirstRemoved(list, k);
    }

    /** Take an element out of its bucket and of the list; an emptied table is cleared. */
    method RemoveElementGivenHash(elem: HashElem<K, V>, h: nat, ghost k: nat)
      requires Sound() && count == |list| && k < |list| && elem == list[k] && h == kc.Index(elem.pKey, htsize)
      modifies this`first, this`list, this`starts, this`ht, this`htsize, this`count, ht, set e | e in list
      ensures count == |list| && list == RemoveAt(old(list), k)
      ensures if ht == null then list == [] && htsize == 0 && first == null
              else list != [] && Sound() && ht == old(ht) && htsize == old(htsize)
      ensures forall e :: e in old(list) ==> e.data == old(e.data)
    {
      hide Run, Linked, RemoveAt, Distinct;
      ghost var was, table := list, ht[..];
      RunsRemoved(kc, table, was, starts, k);
      LinkedNext(was, first, k);
      Unlink(elem, k);
      var chain := if ht[h].chain == elem then elem.next else ht[h].chain;
      if ht[h].count == 1 {
        chain := null;
      }
      ht[h] := Bucket(ht[h].count - 1, chain);
      assert ht[..] == table[h := Bucket(table[h].count - 1, chain)];
      list, starts := RemoveAt(was, k), Lowered(starts, k);
      count := count - 1;
      if count == 0 {
        NoFirst(list, first);
        HashClear();
      }
    }

    /** Forget all elements. */
    method HashClear()
      requires Linked(list, first)
      modifies this`first, this`list, this`starts, this`ht, this`htsize, this`count
      ensures list == [] && count == 0 && ht == null && htsize == 0 && first == null
    {
      first, ht, htsize := null, null, 0;
      count := 0;
      list, starts := [], [];
    }

    /** Look for a key in the bucket with its hash. */
    method FindElementGivenHash(pKey: K, h: nat) returns (elem: HashElem?<K, V>, ghost k: nat)
      requires ht != null ==> Sound() && h == kc.Index(pKey, htsize)
      requires ht == null ==> list == []
      ensures elem != null ==> k < |list| && elem == list[k] && kc.norm(elem.pKey) == kc.norm(pKey)
      ensures elem == null ==> forall i :: 0 <= i < |list| ==> kc.norm(list[i].pKey) != kc.norm(pKey)
    {
      hide Linked, Runs, Run, PowerOfTwo, KeyClass.Index;
      k := 0;
      if ht != null {
        LinkedFacts(list, first);
        InBucket(kc, ht[..], list, starts, pKey, h);
        var n := ht[h].count;
        elem, k := ht[h].chain, starts[h];
        while n > 0 && elem != null
          invariant starts[h] <= k == starts[h] + ht[h].count - n <= |list| && n <= ht[h].count
                    && (n > 0 ==> elem == Next(list, k - 1))
          invariant forall i :: starts[h] <= i < k ==> kc.norm(list[i].pKey) != kc.norm(pKey)
        {
          if kc.norm(elem.pKey) == kc.norm(pKey) {
            return;
          }
          elem := elem.next;
          n, k := n - 1, k + 1;
        }
      }
      elem := null;
    }

    /** The data stored for a key. */
    method HashFind(pKey: K) returns (data: Option<V>)
      requires Valid()
      ensures data == if kc.norm(pKey) in content then Some(content[kc.norm(pKey)].1) else None
    {
      if ht == null {
        return None;
      }
      var elem;
      ghost var k;
      elem, k := FindElementGivenHash(pKey, kc.Index(pKey, htsize));
      return if elem != null then Some(elem.data) else None;
    }

    /** Store data for a key, or with no data remove the key; what was stored before is returned. */
    method HashInsert(pKey: K, data: Option<V>) returns (was: Option<V>)
      requires Valid()
      modifies this, ht, set e | e in list
      ensures Valid()
      ensures was == if kc.norm(pKey) in old(content) then Some(old(content)[kc.norm(pKey)].1) else None
      ensures content == match data
                         case None => old(content) - {kc.norm(pKey)}
                         case Some(v) => old(content)[kc.norm(pKey) :=
                                                      (if was.Some? then old(content)[kc.norm(pKey)].0 else pKey, v)]
    {
      hide Linked, Runs;
      var elem;
      ghost var k;
      elem, k := FindElementGivenHash(pKey, if ht == null then 0 else kc.Index(pKey, htsize));
      if elem != null {
        was := Some(elem.data);
        if data.None? {
          Drop(elem, kc.Index(pKey, htsize), k);
        } else {
          Replace(elem, data.value, k);
        }
      } else {
        was := None;
        NotFound(kc, list, content, pKey);
        if data.Some? {
          Add(pKey, data.value);
        }
      }
    }

    /** The entries are as given, and all else is in order. */
    ghost predicate Settled(content: map<N, (K, V)>)
      reads this, list, ht
    {
      && count == |list| && Holds(kc, list, content)
      && (if ht == null then list == [] && htsize == 0 && first == null else list != [] && Sound() && count <= htsize)
    }

    ghost method Settle(entries: map<N, (K, V)>)
      requires Settled(entries)
      modifies this`content
      ensures Valid() && content == entries
    {
      hide Linked, Runs, Holds, PowerOfTwo;
      content := entries;
    }

    method Replace(elem: HashElem<K, V>, v: V, ghost k: nat)
      requires Valid() && k < |list| && elem == list[k]
      modifies elem`data, this`content
      ensures Valid() && content == old(content)[kc.norm(elem.pKey) := (elem.pKey, v)]
    {
      hide Runs, Distinct;
      elem.data := v;
      content := content[kc.norm(elem.pKey) := (elem.pKey, v)];
      assert forall i :: 0 <= i < |list| && old(LinkedAt(list, i)) ==> LinkedAt(list, i);
    }

    method Drop(elem: HashElem<K, V>, h: nat, ghost k: nat)
      requires Valid() && k < |list| && elem == list[k] && ht != null && h == kc.Index(elem.pKey, htsize)
      modifies this, ht, set e | e in list
      ensures Valid() && content == old(content) - {kc.norm(elem.pKey)}
    {
      hide Linked, Runs, RemoveAt, Keyed, PowerOfTwo, Distinct;
      ghost var was := list;
      LinkedFacts(list, first);
      RemoveElementGivenHash(elem, h, k);
      MembersRemoved(was, k);
      assert Holds(kc, was, content);
      HoldsRemoved(kc, was, content, list, elem);
      Settle(content - {kc.norm(elem.pKey)});
    }

    method Add(pKey: K, v: V)
      requires Valid() && kc.norm(pKey) !in content
      modifies this, ht, set e | e in list
      ensures Valid() && content == old(content)[kc.norm(pKey) := (pKey, v)]
    {
      hide Linked, Runs, Keyed, PowerOfTwo, Distinct;
      ghost var was, before := list, content;
      ghost var entries := before[kc.norm(pKey) := (pKey, v)];
      var newElem := new HashElem(pKey, v);
      count := count + 1;
      Grow();
      InsertElement(kc.Index(pKey, htsize), newElem);
      newElem.data := v;
      assert Holds(kc, was, before);
      HoldsAdded(kc, was, before, list, newElem);
      Settle(entries);
    }

    /** Make sure there is a table, with a bucket at least for every element. */
    method Grow()
      requires if ht == null then list == [] && htsize == 0 && first == null else Sound()
      requires count <= htsize + 1
      modifies this`first, this`list, this`starts, this`ht, this`htsize, set e | e in list
      ensures Sound() && (ht == old(ht) || fresh(ht)) && count <= htsize
      ensures old(htsize) > 0 ==> htsize == if count > old(htsize) then 2 * old(htsize) else old(htsize)
      ensures old(htsize) == 0 ==> htsize == 8
      ensures |list| == |old(list)| && forall e :: e in list <==> e in old(list)
      ensures forall e :: e in list ==> e.data == old(e.data)
    {
      hide Linked, Runs;
      if htsize == 0 {
        NothingLinked<K, V>();
        Rehash(8);
      }
      if count > htsize {
        Rehash(htsize * 2);
      }
    }
  }

  lemma {:induction false} NotFound<K, N, V>(kc: KeyClass<K, N>, list: seq<HashElem<K, V>>, content: map<N, (K, V)>,
                                             pKey: K)
    requires Holds(kc, list, content) && forall i :: 0 <= i < |list| ==> kc.norm(list[i].pKey) != kc.norm(pKey)
    ensures kc.norm(pKey) !in content
  {
    assert kc.norm(pKey) in content ==> Keyed(kc, list, kc.norm(pKey));
  }

  lemma {:induction false} MembersRemoved<T>(list: seq<T>, k: nat)
    requires k < |list| && Distinct(list)
    ensures forall e :: e in RemoveAt(list, k) <==> e in list && e != list[k]
  {
    var less := RemoveAt(list, k);
    forall e | e in list && e != list[k] ensures e in less {
      var i :| 0 <= i < |list| && list[i] == e;
      assert less[if i < k then i else i - 1] == e;
    }
  }

  lemma {:induction false} HoldsRemoved<K, N, V>(kc: KeyClass<K, N>, was: seq<HashElem<K, V>>, content: map<N, (K, V)>,
                                                 list: seq<HashElem<K, V>>, x: HashElem<K, V>)
    requires Holds(kc, was, content) && x in was && forall e :: e in list <==> e in was && e != x
    ensures Holds(kc, list, content - {kc.norm(x.pKey)})
  {
    forall n | n in content && n != kc.norm(x.pKey) ensures Keyed(kc, list, n) {
      assert Keyed(kc, was, n);
    }
  }

  lemma {:induction false} HoldsAdded<K, N, V>(kc: KeyClass<K, N>, was: seq<HashElem<K, V>>, content: map<N, (K, V)>,
                                               list: seq<HashElem<K, V>>, x: HashElem<K, V>)
    requires Holds(kc, was, content) && forall e :: e in list <==> e in was || e == x
    requires kc.norm(x.pKey) !in content
    ensures Holds(kc, list, content[kc.norm(x.pKey) := (x.pKey, x.data)])
  {
    assert x in list;
    forall n | n in content || n == kc.norm(x.pKey) ensures Keyed(kc, list, n) {
      assert n in content ==> Keyed(kc, was, n);
    }
  }

  lemma {:induction false} NoFirst<K, V>(list: seq<HashElem<K, V>>, first: HashElem?<K, V>)
    requires Linked(list, first)
    ensures list == [] ==> first == null
  {}

  lemma {:induction false} DistinctRemoved<T>(list: seq<T>, k: nat)
    requires k < |list| && Distinct(list)
    ensures Distinct(RemoveAt(list, k))
  {
    var less := RemoveAt(list, k);
    forall i, j | 0 <= i < j < |less| ensures less[i] != less[j] {
      assert list[if i < k then i else i + 1] != list[if j < k then j else j + 1];
    }
  }

  lemma {:induction false} RemovedAt<K, V>(list: seq<HashElem<K, V>>, k: nat, i: nat)
    requires k < |list| && i < |list| - 1
    ensures var less := RemoveAt(list, k);
            && i < |less|
            && (i < k ==> less[i] == list[i] && Next(less, i) == (if i + 1 == k then Next(list, k) else Next(list, i))
                          && Next(less, i - 2) == Next(list, i - 2))
            && (i >= k ==> less[i] == list[i + 1] && Next(less, i) == Next(list, i + 1)
                           && Next(less, i - 2) == if i == k then Next(list, k - 2) else Next(list, i - 1))
  {}

  lemma {:induction false} FirstRemoved<K, V>(list: seq<HashElem<K, V>>, k: nat)
    requires k < |list|
    ensures Next(RemoveAt(list, k), -1) == if k == 0 then Next(list, 0) else Next(list, -1)
  {}

  lemma {:induction false} RunsRemoved<K, N, V>(kc: KeyClass<K, N>, ht: seq<Bucket<K, V>>, list: seq<HashElem<K, V>>,
                                                starts: seq<nat>, k: nat)
    requires Runs(kc, ht, list, starts) && k < |list|
    ensures var b := kc.Index(list[k].pKey, |ht|);
            ht[b].count > 0 && (ht[b].chain == list[k] && ht[b].count > 1 && Distinct(list) ==> k == starts[b]) &&
            (k == starts[b] ==> ht[b].chain == list[k]) &&
            var chain := if ht[b].count == 1 then null else if k == starts[b] then Next(list, k) else ht[b].chain;
            Runs(kc, ht[b := Bucket(ht[b].count - 1, chain)], RemoveAt(list, k), Lowered(starts, k))
  {
    hide Run;
    var b := kc.Index(list[k].pKey, |ht|);
    RunRemoved(kc, ht, list, starts, k, b);
    var chain := if ht[b].count == 1 then null else if k == starts[b] then Next(list, k) else ht[b].chain;
    var less := ht[b := Bucket(ht[b].count - 1, chain)];
    BucketHead(kc, ht, list, starts, b);
    forall c | 0 <= c < |less| ensures Run(kc, less, RemoveAt(list, k), Lowered(starts, k), c) {
      RunRemoved(kc, ht, list, starts, k, c);
    }
  }

  lemma {:induction false} BucketHead<K, N, V>(kc: KeyClass<K, N>, ht: seq<Bucket<K, V>>, list: seq<HashElem<K, V>>,
                                               starts: seq<nat>, b: nat)
    requires Runs(kc, ht, list, starts) && b < |ht| && ht[b].count > 0
    ensures starts[b] < |list| && ht[b].chain == list[starts[b]]
  {
    assert Run(kc, ht, list, starts, b);
  }

  lemma {:induction false} LinkedNext<K, V>(list: seq<HashElem<K, V>>, first: HashElem?<K, V>, k: nat)
    requires Linked(list, first) && k < |list|
    ensures list[k].next == Next(list, k) && Distinct(list)
  {
    assert LinkedAt(list, k);
  }

  lemma {:induction false} LinkedFacts<K, V>(list: seq<HashElem<K, V>>, first: HashElem?<K, V>)
    requires Linked(list, first)
    ensures Distinct(list) && first == Next(list, -1)
    ensures forall j :: 0 <= j < |list| ==> list[j].next == Next(list, j)
  {
    forall j | 0 <= j < |list| ensures list[j].next == Next(list, j) {
      assert LinkedAt(list, j);
    }
  }

  lemma {:induction false} NothingLinked<K, V>()
    ensures Linked<K, V>([], null)
  {}

  lemma {:induction false} NoRuns<K, N, V>(kc: KeyClass<K, N>, ht: seq<Bucket<K, V>>, starts: seq<nat>)
    requires |ht| == |starts| > 0 && forall b :: 0 <= b < |ht| ==> ht[b] == Bucket(0, null) && starts[b] == 0
    ensures Runs(kc, ht, [], starts)
  {
    forall b | 0 <= b < |ht| ensures Run(kc, ht, [], starts, b) {}
  }

  lemma {:induction false} MembersInserted<T>(list: seq<T>, p: nat, x: T)
    requires p <= |list|
    ensures |InsertAt(list, p, x)| == |list| + 1
    ensures forall e :: e in InsertAt(list, p, x) <==> e in list || e == x
  {
    assert list == list[..p] + list[p..];
  }

  lemma {:induction false} OneMore<T>(list: seq<T>, i: nat)
    requires i < |list|
    ensures forall e :: e in list[..i + 1] <==> e in list[..i] || e == list[i]
  {
    assert list[..i + 1] == list[..i] + [list[i]];
  }

  lemma {:induction false} NotBefore<T>(list: seq<T>, i: nat)
    requires Distinct(list) && i < |list|
    ensures list[i] !in list[..i] && forall j :: i < j < |list| ==> list[j] !in list[..i] && list[j] != list[i]
  {}

  lemma {:induction false} InsertedAt<K, V>(list: seq<HashElem<K, V>>, p: nat, x: HashElem<K, V>, i: nat)
    requires p <= |list| && i <= |list|
    ensures var more := InsertAt(list, p, x);
            && (i == p ==> more[i] == x && Next(more, i) == Next(list, p - 1) && Next(more, i - 2) == Next(list, p - 2))
            && (i < p ==> more[i] == list[i] && Next(more, i) == (if i + 1 == p then x else Next(list, i))
                          && Next(more, i - 2) == Next(list, i - 2))
            && (i > p ==> more[i] == list[i - 1] && Next(more, i) == Next(list, i - 1)
                          && Next(more, i - 2) == if i == p + 1 then x else Next(list, i - 3))
            && Next(more, -1) == (if p == 0 then x else Next(list, -1))
  {}

  lemma {:induction false} DistinctAt<T>(list: seq<T>, i: nat, p: nat)
    requires Distinct(list) && i < |list| && p <= |list|
    ensures p < |list| && i != p ==> list[i] != list[p]
    ensures 0 < p && i != p - 1 ==> list[i] != list[p - 1]
  {}
}
