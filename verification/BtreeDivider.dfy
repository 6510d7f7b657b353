/** The same cell on a leaf and on an interior page: a child pointer more or less. */
module BtreeDivider {
  import opened Basics
  import opened BtreeCell

  /** The size of a cell before it is rounded up to four bytes. */
  ghost function NaturalSize(kind: CellKind, c: seq<Byte>): nat
    requires kind.Valid()
  {
    var x := ParseCell(kind, c);
    if x.nPayload <= kind.maxLocal then x.nPayload + x.nHeader else x.nLocal + x.nHeader + 4
  }

  lemma {:induction false} NaturalCellSize(kind: CellKind, c: seq<Byte>)
    requires kind.Valid()
    ensures CellSize(kind, c) == Max(4, NaturalSize(kind, c))
  {
    hide GetVarint, GetVarint32;
  }

  lemma {:induction false} VarintShift(s: seq<Byte>, at: nat, i: nat, acc: nat)
    requires i <= 8 && |s| >= 4
    ensures GetVarintFrom(s, at + 4, i, acc) == GetVarintFrom(s[4..], at, i, acc)
    ensures GetVarint32From(s, at + 4, i, acc) == GetVarint32From(s[4..], at, i, acc)
  {
    LongShift(s, at, i, acc);
    ShortShift(s, at, i, acc);
  }

  lemma {:induction false} LongShift(s: seq<Byte>, at: nat, i: nat, acc: nat)
    requires i <= 8 && |s| >= 4
    ensures GetVarintFrom(s, at + 4, i, acc) == GetVarintFrom(s[4..], at, i, acc)
    decreases 8 - i
  {
    var t := s[4..];
    assert At(s, at + 4 + i) == At(t, at + i);
    if i < 8 && At(t, at + i) >= 128 {
      LongShift(s, at, i + 1, acc * 128 + (At(t, at + i) - 128));
    }
  }

  lemma {:induction false} ShortShift(s: seq<Byte>, at: nat, i: nat, acc: nat)
    requires i <= 8 && |s| >= 4
    ensures GetVarint32From(s, at + 4, i, acc) == GetVarint32From(s[4..], at, i, acc)
    decreases 8 - i
  {
    var t := s[4..];
    assert At(s, at + 4 + i) == At(t, at + i);
    if i < 8 && At(t, at + i) >= 128 {
      ShortShift(s, at, i + 1, (acc * 128 + At(t, at + i) % 128) % TWO32);
    }
  }

  lemma {:induction false} LocalSame(kind: CellKind, n: nat)
    requires kind.Valid()
    ensures LocalSize(kind.(leaf := false), n) == LocalSize(kind, n)
  {}

  /** What a cell says of itself, with a child pointer and without. */
  lemma {:induction false} ParseStripped(kind: CellKind, c: seq<Byte>) returns (h: nat, nKey: nat, nData: nat)
    requires kind.Valid() && kind.leaf && |c| >= 4
    ensures h > 0 && ParseCell(kind, c[4..]) == CellInfoOf(kind, h, nKey, nData)
    ensures ParseCell(kind.(leaf := false), c) == CellInfoOf(kind.(leaf := false), 4 + h, nKey, nData)
  {
    hide GetVarintFrom, GetVarint32From, LocalSize, CellInfoOf;
    VarintShift(c, 0, 0, 0);
    var n1 := if kind.hasData then GetVarint32(c, 4).0 else 0;
    VarintShift(c, n1, 0, 0);
    HeaderLonger(c, 4 + n1);
    nData := if kind.hasData then GetVarint32(c, 4).1 else 0;
    var key := if kind.intKey then GetVarint(c, 4 + n1) else GetVarint32(c, 4 + n1);
    h, nKey := n1 + key.0, key.1;
  }

  /** Without its child pointer a cell is four bytes shorter, before rounding. */
  lemma {:induction false} StripCell(kind: CellKind, c: seq<Byte>)
    requires kind.Valid() && kind.leaf && |c| >= 4
    ensures NaturalSize(kind.(leaf := false), c) == NaturalSize(kind, c[4..]) + 4
    ensures NaturalSize(kind.(leaf := false), c) > 4
  {
    hide ParseCell, LocalSize;
    var h, nKey, nData := ParseStripped(kind, c);
    LocalSame(kind, CellInfoOf(kind, h, nKey, nData).nPayload);
  }

  /** A divider of at least eight bytes is whole as a leaf cell, too. */
  lemma {:induction false} DividerOnLeaf(kind: CellKind, c: seq<Byte>)
    requires kind.Valid() && kind.leaf && CellSize(kind.(leaf := false), c) == |c| >= 8
    ensures CellSize(kind, c[4..]) == |c| - 4 == NaturalSize(kind, c[4..])
  {
    hide ParseCell;
    StripCell(kind, c);
    NaturalCellSize(kind, c[4..]);
    NaturalCellSize(kind.(leaf := false), c);
  }

  /** A leaf cell that needs no rounding is whole behind any child pointer. */
  lemma {:induction false} LeafAsDivider(kind: CellKind, ptr: seq<Byte>, c: seq<Byte>)
    requires kind.Valid() && kind.leaf && CellSize(kind, c) == |c| == NaturalSize(kind, c) && |ptr| == 4
    ensures CellSize(kind.(leaf := false), ptr + c) == |c| + 4
  {
    hide ParseCell;
    assert (ptr + c)[4..] == c;
    StripCell(kind, ptr + c);
    NaturalCellSize(kind.(leaf := false), ptr + c);
  }

  /** fillInCell with a key only: the divider made for leaves that keep all data. */
  function KeyCell(key: nat): seq<Byte>
    requires key < TWO64
  {
    [0, 0, 0, 0] + PutVarint(key)
  }

  lemma {:induction false} KeyCellWhole(kind: CellKind, key: nat)
    requires kind.Valid() && !kind.leaf && !kind.hasData && kind.intKey && key < TWO64
    ensures CellSize(kind, KeyCell(key)) == |KeyCell(key)| <= 13
    ensures ParseCell(kind, KeyCell(key)).nKey == key
  {
    hide GetVarintFrom;
    var c := KeyCell(key);
    assert c[4..4 + |PutVarint(key)|] == PutVarint(key);
    VarintRoundTrip(c, 4, key);
  }
}
