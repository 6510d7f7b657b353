/** Variable-length integers, and the shape of a b-tree cell: header, local payload,
    and the number of its first overflow page. */
module BtreeCell {
  import opened Basics

  const TWO32 := 0x1_0000_0000
  const TWO56 := 0x100_0000_0000_0000
  const TWO64 := 0x1_0000_0000_0000_0000

  /** Reading past the end of a cell yields nothing of interest; a zero ends a varint. */
  function At(s: seq<Byte>, i: int): Byte {
    if 0 <= i < |s| then s[i] else 0
  }

  // ------------------------------------------------------------ page numbers

  /** A page number, most significant byte first. */
  function Four(n: nat): (r: seq<Byte>)
    requires n < TWO32
    ensures |r| == 4
  {
    [n / 0x100 / 0x100 / 0x100, n / 0x100 / 0x100 % 0x100, n / 0x100 % 0x100, n % 0x100]
  }

  function Num(b: seq<Byte>): (n: nat)
    requires |b| == 4
    ensures n < TWO32
  {
    b[0] as int * 0x100_0000 + b[1] as int * 0x1_0000 + b[2] as int * 0x100 + b[3] as int
  }

  lemma {:induction false} NumFour(n: nat)
    requires n < TWO32
    ensures Num(Four(n)) == n
  {}

  // ------------------------------------------------------------ varints

  /** All digits but the last of a base-128 number, each marked as continued. */
  function Digits(v: nat): (bs: seq<Byte>)
    ensures forall k :: 0 <= k < |bs| ==> bs[k] >= 128
  {
    if v == 0 then [] else Digits(v / 128) + [128 + v % 128]
  }

  /** Exactly `n` continued digits. */
  function FixedDigits(v: nat, n: nat): (bs: seq<Byte>)
    ensures |bs| == n
    ensures forall k :: 0 <= k < |bs| ==> bs[k] >= 128
  {
    if n == 0 then [] else FixedDigits(v / 128, n - 1) + [128 + v % 128]
  }

  /** sqlite3PutVarint: up to eight bytes of seven bits, or nine with eight bits in the last. */
  function PutVarint(v: nat): (bs: seq<Byte>)
    requires v < TWO64
  {
    if v >= TWO56 then FixedDigits(v / 256, 8) + [v % 256] else Digits(v / 128) + [v % 128]
  }

  /** sqlite3GetVarint from the `i`-th of its bytes on: the number of bytes read, and the value. */
  function GetVarintFrom(s: seq<Byte>, at: nat, i: nat, acc: nat): (r: (nat, nat))
    requires i <= 8
    decreases 8 - i
  {
    var c := At(s, at + i);
    if i == 8 then (9, acc * 256 + c)
    else if c < 128 then (i + 1, acc * 128 + c)
    else GetVarintFrom(s, at, i + 1, acc * 128 + (c - 128))
  }

  function GetVarint(s: seq<Byte>, at: nat): (nat, nat) { GetVarintFrom(s, at, 0, 0) }

  /** sqlite3GetVarint32: seven bits of every byte, kept to 32 bits. */
  function GetVarint32From(s: seq<Byte>, at: nat, i: nat, acc: nat): (r: (nat, nat))
    requires i <= 8
    ensures r.1 < TWO32
    decreases 8 - i
  {
    var c := At(s, at + i);
    var x := (acc * 128 + c % 128) % TWO32;
    if i == 8 || c < 128 then (i + 1, x) else GetVarint32From(s, at, i + 1, x)
  }

  function GetVarint32(s: seq<Byte>, at: nat): (r: (nat, nat))
    ensures r.1 < TWO32
  {
    GetVarint32From(s, at, 0, 0)
  }

  // ------------------------------------------------------------ cells

  /** What a page says about the cells on it. */
  datatype CellKind = CellKind(leaf: bool, hasData: bool, intKey: bool, minLocal: nat, maxLocal: nat, usable: nat) {
    ghost predicate Valid() { minLocal <= maxLocal && usable > 4 }
    function ChildPtrSize(): nat { if leaf then 0 else 4 }
  }

  datatype CellInfo = CellInfo(nKey: nat, nData: nat, nHeader: nat, nPayload: nat, nLocal: nat, iOverflow: nat,
                               nSize: nat)

  /** How much of an overlong payload stays on the page. */
  function LocalSize(kind: CellKind, nPayload: nat): nat
    requires kind.Valid()
  {
    if nPayload <= kind.maxLocal then nPayload
    else
      var surplus := kind.minLocal + (nPayload - kind.minLocal) % (kind.usable - 4);
      if surplus <= kind.maxLocal then surplus else kind.minLocal
  }

  function Max(a: nat, b: nat): nat { if a > b then a else b }

  /** The rest of parseCellPtr, once the header has been read. */
  function CellInfoOf(kind: CellKind, nHeader: nat, nKey: nat, nData: nat): CellInfo
    requires kind.Valid()
  {
    var nPayload := if kind.intKey then nData else (nData + nKey) % TWO32;
    var nLocal := LocalSize(kind, nPayload);
    if nPayload <= kind.maxLocal then CellInfo(nKey, nData, nHeader, nPayload, nLocal, 0, Max(4, nPayload + nHeader))
    else CellInfo(nKey, nData, nHeader, nPayload, nLocal, nLocal + nHeader, nLocal + nHeader + 4)
  }

  /** parseCellPtr on the bytes of a cell. */
  function ParseCell(kind: CellKind, s: seq<Byte>): CellInfo
    requires kind.Valid()
  {
    var n0 := kind.ChildPtrSize();
    var (n1, nData) := if kind.hasData then GetVarint32(s, n0) else (0, 0);
    var (n2, nKey) := if kind.intKey then GetVarint(s, n0 + n1) else GetVarint32(s, n0 + n1);
    CellInfoOf(kind, n0 + n1 + n2, nKey, nData)
  }

  function CellSize(kind: CellKind, s: seq<Byte>): (n: nat)
    requires kind.Valid()
    ensures n >= 4
  {
    ParseCell(kind, s).nSize
  }

  // ------------------------------------------------------------ reading varints back

  lemma {:induction false} GetDigits(s: seq<Byte>, at: nat, i: nat, v: nat, last: Byte)
    requires at + |Digits(v)| + 1 <= |s| && s[at..at + |Digits(v)| + 1] == Digits(v) + [last]
    requires i == |Digits(v)| <= 7 && last < 128
    ensures GetVarint(s, at) == (i + 1, v * 128 + last)
    ensures v * 128 + last < TWO32 ==> GetVarint32(s, at) == (i + 1, v * 128 + last)
  {
    DigitsRead(s, at, Digits(v), last);
    DigitsValue(v);
  }

  /** The value of continued digits. */
  ghost function Value(bs: seq<Byte>): nat {
    if bs == [] then 0 else Value(bs[..|bs| - 1]) * 128 + (bs[|bs| - 1] % 128)
  }

  lemma {:induction false} DigitsValue(v: nat)
    ensures Value(Digits(v)) == v
    decreases v
  {
    if v > 0 {
      DigitsValue(v / 128);
      var bs, last := Digits(v / 128), 128 + v % 128;
      assert Digits(v) == bs + [last];
      hide Digits;
      assert (bs + [last])[..|bs|] == bs;
    }
  }

  lemma {:induction false} FixedDigitsValue(v: nat, n: nat)
    requires v < Pow128(n)
    ensures Value(FixedDigits(v, n)) == v
    decreases n
  {
    if n > 0 {
      FixedDigitsValue(v / 128, n - 1);
      var bs := FixedDigits(v, n);
      assert bs[..|bs| - 1] == FixedDigits(v / 128, n - 1);
    }
  }

  ghost function Pow128(n: nat): nat { if n == 0 then 1 else 128 * Pow128(n - 1) }

  lemma {:induction false} DigitsRead(s: seq<Byte>, at: nat, bs: seq<Byte>, last: Byte)
    requires at + |bs| + 1 <= |s| && s[at..at + |bs| + 1] == bs + [last]
    requires |bs| <= 7 && last < 128 && forall k :: 0 <= k < |bs| ==> bs[k] >= 128
    ensures GetVarint(s, at) == (|bs| + 1, Value(bs) * 128 + last)
    ensures Value(bs) * 128 + last < TWO32 ==> GetVarint32(s, at) == (|bs| + 1, Value(bs) * 128 + last)
  {
    hide GetVarintFrom, GetVarint32From, Value;
    var part := s[at..at + |bs| + 1];
    assert forall k :: 0 <= k < |bs| ==> At(s, at + k) == part[k] == bs[k];
    assert At(s, at + |bs|) == part[|bs|] == last;
    assert bs[..|bs|] == bs;
    ReadFrom(s, at, bs, |bs|);
    ReadLast(s, at, |bs|, Value(bs));
  }

  lemma {:induction false} ReadStep(s: seq<Byte>, at: nat, i: nat, acc: nat)
    requires i < 8 && At(s, at + i) >= 128
    ensures GetVarintFrom(s, at, i, acc) == GetVarintFrom(s, at, i + 1, acc * 128 + At(s, at + i) % 128)
    ensures acc * 128 + At(s, at + i) % 128 < TWO32 ==>
              GetVarint32From(s, at, i, acc) == GetVarint32From(s, at, i + 1, acc * 128 + At(s, at + i) % 128)
  {
    Read32Step(s, at, i, acc);
    hide GetVarint32From;
    var c := At(s, at + i);
    assert c % 128 == c - 128;
  }

  lemma {:induction false} Read32Step(s: seq<Byte>, at: nat, i: nat, acc: nat)
    requires i < 8 && At(s, at + i) >= 128
    ensures acc * 128 + At(s, at + i) % 128 < TWO32 ==>
              GetVarint32From(s, at, i, acc) == GetVarint32From(s, at, i + 1, acc * 128 + At(s, at + i) % 128)
  {
    var x := acc * 128 + At(s, at + i) % 128;
    Kept(x);
  }

  lemma {:induction false} Kept(x: nat)
    ensures x < TWO32 ==> x % TWO32 == x
  {}

  lemma {:induction false} ReadLast(s: seq<Byte>, at: nat, i: nat, acc: nat)
    requires i < 8 && At(s, at + i) < 128
    ensures GetVarintFrom(s, at, i, acc) == (i + 1, acc * 128 + At(s, at + i))
    ensures acc * 128 + At(s, at + i) < TWO32 ==> GetVarint32From(s, at, i, acc) == (i + 1, acc * 128 + At(s, at + i))
  {}

  lemma {:induction false} ValueStep(bs: seq<Byte>, i: nat)
    requires 0 < i <= |bs|
    ensures Value(bs[..i]) == Value(bs[..i - 1]) * 128 + bs[i - 1] % 128
  {
    assert bs[..i][..i - 1] == bs[..i - 1];
  }

  /** After `i` continued digits, the readers have their value. */
  lemma {:induction false} ReadFrom(s: seq<Byte>, at: nat, bs: seq<Byte>, i: nat)
    requires i <= |bs| <= 8 && forall k :: 0 <= k < |bs| ==> bs[k] >= 128 && At(s, at + k) == bs[k]
    ensures GetVarint(s, at) == GetVarintFrom(s, at, i, Value(bs[..i]))
    ensures Value(bs[..i]) < TWO32 ==> GetVarint32(s, at) == GetVarint32From(s, at, i, Value(bs[..i]))
  {
    hide GetVarintFrom, GetVarint32From, Value;
    if i == 0 {
      NoValue(bs);
    } else {
      ReadFrom(s, at, bs, i - 1);
      ValueStep(bs, i);
      ReadStep(s, at, i - 1, Value(bs[..i - 1]));
      assert At(s, at + (i - 1)) == bs[i - 1];
    }
  }

  lemma {:induction false} NoValue(bs: seq<Byte>)
    ensures Value(bs[..0]) == 0
  {}

  lemma {:induction false} DigitsLength(v: nat, n: nat)
    requires v < Pow128(n)
    ensures |Digits(v)| <= n
    decreases n
  {
    if v > 0 && n > 0 {
      DigitsLength(v / 128, n - 1);
    }
  }

  lemma {:induction false} Powers()
    ensures Pow128(7) == 0x2_0000_0000_0000 && Pow128(8) == TWO56
  {
    assert Pow128(4) == 0x1000_0000;
    assert Pow128(7) == 128 * 128 * 128 * Pow128(4);
  }

  /** Reading a stored varint gives back its value and length, with either reader as far as it goes. */
  lemma {:induction false} VarintRoundTrip(s: seq<Byte>, at: nat, v: nat)
    requires v < TWO64 && at + |PutVarint(v)| <= |s| && s[at..at + |PutVarint(v)|] == PutVarint(v)
    ensures 1 <= |PutVarint(v)| <= 9
    ensures GetVarint(s, at) == (|PutVarint(v)|, v)
    ensures v < TWO32 ==> GetVarint32(s, at) == (|PutVarint(v)|, v)
  {
    if v < TWO56 {
      ShortRoundTrip(s, at, v);
    } else {
      LongRoundTrip(s, at, v);
    }
  }

  lemma {:induction false} ShortRoundTrip(s: seq<Byte>, at: nat, v: nat)
    requires v < TWO56 && at + |PutVarint(v)| <= |s| && s[at..at + |PutVarint(v)|] == PutVarint(v)
    ensures 1 <= |PutVarint(v)| <= 8 && GetVarint(s, at) == (|PutVarint(v)|, v)
    ensures v < TWO32 ==> GetVarint32(s, at) == (|PutVarint(v)|, v)
  {
    hide Digits, GetVarint, GetVarint32;
    Powers();
    DigitsLength(v / 128, 7);
    GetDigits(s, at, |Digits(v / 128)|, v / 128, v % 128);
  }

  lemma {:induction false} LongRoundTrip(s: seq<Byte>, at: nat, v: nat)
    requires TWO56 <= v < TWO64 && at + |PutVarint(v)| <= |s| && s[at..at + |PutVarint(v)|] == PutVarint(v)
    ensures |PutVarint(v)| == 9 && GetVarint(s, at) == (9, v)
  {
    hide FixedDigits, Value;
    Powers();
    var bs, part := FixedDigits(v / 256, 8), PutVarint(v);
    assert forall k :: 0 <= k < |bs| ==> At(s, at + k) == s[at..at + 9][k] == bs[k];
    assert At(s, at + 8) == s[at..at + 9][8] == v % 256;
    FixedDigitsValue(v / 256, 8);
    ReadFrom(s, at, bs, 8);
    assert bs[..8] == bs;
  }

  // ------------------------------------------------------------ a cell says how long it is

  /** A varint has a byte. */
  lemma {:induction false} HeaderLonger(c: seq<Byte>, at: nat)
    ensures GetVarint(c, at).0 > 0 && GetVarint32(c, at).0 > 0
  {
    VarintLonger(c, at, 0, 0);
  }

  lemma {:induction false} VarintLonger(c: seq<Byte>, at: nat, i: nat, acc: nat)
    requires i <= 8
    ensures GetVarintFrom(c, at, i, acc).0 > i && GetVarint32From(c, at, i, acc).0 > i
    decreases 8 - i
  {
    if i < 8 && At(c, at + i) >= 128 {
      VarintLonger(c, at, i + 1, acc * 128 + (At(c, at + i) - 128));
      VarintLonger(c, at, i + 1, (acc * 128 + At(c, at + i) % 128) % TWO32);
    }
  }

  lemma {:induction false} VarintExtends(s: seq<Byte>, t: seq<Byte>, at: nat, i: nat, acc: nat)
    requires i <= 8 && s <= t && at + GetVarintFrom(s, at, i, acc).0 <= |s|
    ensures GetVarintFrom(t, at, i, acc) == GetVarintFrom(s, at, i, acc)
    ensures GetVarintFrom(s, at, i, acc).0 > i
    decreases 8 - i
  {
    if i < 8 && At(s, at + i) >= 128 {
      VarintExtends(s, t, at, i + 1, acc * 128 + (At(s, at + i) - 128));
    }
  }

  lemma {:induction false} Varint32Extends(s: seq<Byte>, t: seq<Byte>, at: nat, i: nat, acc: nat)
    requires i <= 8 && s <= t && at + GetVarint32From(s, at, i, acc).0 <= |s|
    ensures GetVarint32From(t, at, i, acc) == GetVarint32From(s, at, i, acc)
    ensures GetVarint32From(s, at, i, acc).0 > i
    decreases 8 - i
  {
    if i < 8 && At(s, at + i) >= 128 {
      Varint32Extends(s, t, at, i + 1, (acc * 128 + At(s, at + i) % 128) % TWO32);
    }
  }

  /** Whatever follows a complete cell does not change how it is read. */
  lemma {:induction false} CellExtends(kind: CellKind, s: seq<Byte>, t: seq<Byte>)
    requires kind.Valid() && CellSize(kind, s) <= |s| && s <= t
    ensures ParseCell(kind, t) == ParseCell(kind, s) && CellSize(kind, t) == CellSize(kind, s)
  {
    hide GetVarintFrom, GetVarint32From, LocalSize;
    var n0 := kind.ChildPtrSize();
    var (n1, nData) := if kind.hasData then GetVarint32(s, n0) else (0, 0);
    var (n2, nKey) := if kind.intKey then GetVarint(s, n0 + n1) else GetVarint32(s, n0 + n1);
    assert ParseCell(kind, s).nHeader <= CellSize(kind, s);
    if kind.hasData {
      Varint32Extends(s, t, n0, 0, 0);
    }
    if kind.intKey {
      VarintExtends(s, t, n0 + n1, 0, 0);
    } else {
      Varint32Extends(s, t, n0 + n1, 0, 0);
    }
  }

  lemma {:induction false} VarintSkips(s: seq<Byte>, t: seq<Byte>, at: nat, i: nat, acc: nat, skip: nat)
    requires i <= 8 && |s| == |t| && skip <= at && skip <= |s| && s[skip..] == t[skip..]
    ensures GetVarintFrom(t, at, i, acc) == GetVarintFrom(s, at, i, acc)
    ensures GetVarint32From(t, at, i, acc) == GetVarint32From(s, at, i, acc)
    decreases 8 - i
  {
    assert At(s, at + i) == At(t, at + i) by {
      if at + i < |s| {
        assert s[at + i] == s[skip..][at + i - skip] && t[at + i] == t[skip..][at + i - skip];
      }
    }
    if i < 8 && At(s, at + i) >= 128 {
      VarintSkips(s, t, at, i + 1, acc * 128 + (At(s, at + i) - 128), skip);
      VarintSkips(s, t, at, i + 1, (acc * 128 + At(s, at + i) % 128) % TWO32, skip);
    }
  }

  /** The child page number at the front of a cell does not matter to its size. */
  lemma {:induction false} CellSkips(kind: CellKind, s: seq<Byte>, t: seq<Byte>, skip: nat)
    requires kind.Valid() && |s| == |t| && skip <= kind.ChildPtrSize() && skip <= |s| && s[skip..] == t[skip..]
    ensures ParseCell(kind, t) == ParseCell(kind, s)
  {
    hide GetVarintFrom, GetVarint32From, LocalSize;
    var n0 := kind.ChildPtrSize();
    VarintSkips(s, t, n0, 0, 0, skip);
    var n1 := if kind.hasData then GetVarint32(s, n0).0 else 0;
    VarintSkips(s, t, n0 + n1, 0, 0, skip);
  }
}
