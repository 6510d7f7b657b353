/** A b-tree page held in memory: the bytes of its header, cell pointers, cells and free
    space, rewritten in place, and the cells that did not fit. */
module BtreePage {
  import opened Basics
  import opened BtreeCell
  import opened BtreeSpace
  import opened BtreeContents
  import opened BtreeDefragment
  import opened BtreePointers
  import opened BtreeAssembly

  // ------------------------------------------------------------ in place

  method Put2byte(a: array<Byte>, i: nat, v: nat)
    requires i + 2 <= a.Length && v < 0x10000
    modifies a
    ensures a[..] == Put2(old(a[..]), i, v)
  {
    a[i] := v / 256;
    a[i + 1] := v % 256;
  }

  class MemPage {
    const data: array<Byte>
    const g: Dims
    const kind: CellKind
    var nCell: nat
    var nFree: int
    var overflow: seq<Overflow>

    ghost var cells: seq<Block>
    ghost var free: seq<Block>

    ghost predicate Sound(count: nat, extra: seq<Block>)
      reads this, data
    {
      nCell == |cells| && Intact(data[..], g, kind, count, cells, extra, free)
    }

    /** The maintained count of free bytes is everything that is not header, pointer or cell. */
    ghost predicate Valid()
      reads this, data
    {
      && Sound(|cells|, [])
      && |overflow| <= MAX_OVERFLOW
      && nFree == (if overflow == [] then g.usable - Low() - Sum(cells) else 0)
      && LogicalOk(|cells|, overflow) && AllSized(kind, overflow)
    }

    ghost function Low(): nat
      reads this
    {
      g.CellOffset() + 2 * |cells|
    }

    /** The cells of the page, counting those that wait for room. */
    ghost function Logical(): seq<seq<Byte>>
      requires Valid()
      reads this, data
    {
      Inserted(Contents(), overflow)
    }

    ghost function Contents(): seq<seq<Byte>>
      requires AllWithin(cells, data.Length)
      reads this, data
    {
      ContentsOf(data[..], cells)
    }

    /** The right child, as the four bytes of its page number; nothing on a leaf. */
    function Right(): seq<Byte>
      requires g.CellOffset() <= data.Length
      reads data
    {
      RightOf(data[..], g)
    }

    /** What changes to the cells leave as it is: the flags with all bytes before them, and the right child. */
    ghost function Header(): (r: (seq<Byte>, seq<Byte>))
      requires g.CellOffset() <= data.Length
      reads data
      ensures r == (data[..g.hdr + 1], Right())
    {
      Fixed(data[..], g)
    }

    function Word(i: nat): (v: nat)
      requires i + 2 <= data.Length
      reads data
      ensures v == Get2(data[..], i)
    {
      data[i] as int * 256 + data[i + 1] as int
    }

    // ---------------------------------------------------------- freeSpace

    /** Link a block into the sorted list of free blocks. */
    method LinkFree(start: nat, size: nat, ghost low: nat, ghost used: seq<Block>)
      requires Space(data[..], g, low, used + [Block(start, size)], free, |free|)
      modifies data, this`nFree, this`free
      ensures Space(data[..], g, low, used, free, 0) && SameUsed(old(data[..]), data[..], g, low, used)
      ensures nFree == old(nFree) + size
      ensures data[g.hdr + 7] == old(data[g.hdr + 7])
    {
      hide Blocks, FreeList, Sum, SameUsed, Get2;
      ghost var d, b, all := data[..], Block(start, size), used + [Block(start, size)];
      SpaceWeaken(d, g, low, all, free, |free|);
      var addr := g.hdr + 1;
      ghost var k := 0;
      LinkFact(d, g, free, 0);
      var pbegin := Word(addr);
      while pbegin < start && pbegin > 0
        invariant k <= |free| && addr == LinkAt(g, free, k) && pbegin == LinkTo(free, k)
        invariant k > 0 ==> free[k - 1].start < start
        invariant data[..] == d && free == old(free) && nFree == old(nFree)
        decreases |free| - k
      {
        addr := pbegin;
        k := k + 1;
        LinkFact(d, g, free, k);
        pbegin := Word(addr);
      }
      FitsAt(d, g, low, all, free, k, b);
      InsertFreeKeeps(d, g, low, used, b, free, k);
      Put2byte(data, addr, start);
      Put2byte(data, start, pbegin);
      Put2byte(data, start + 2, size);
      InsertFreeFrag(d, g, low, used, b, free, k);
      nFree := nFree + size;
      free := With(free, k, b);
    }

    /** Swallow the free block after the `i`-th, and the fragment between the two. */
    method MergeNext(pbegin: nat, pnext: nat, psize: nat, ghost low: nat, ghost used: seq<Block>, ghost i: nat)
      requires Space(data[..], g, low, used, free, i) && i + 1 < |free| && Gap(free, i) <= 3
      requires 0 < pbegin == free[i].start && psize == free[i].size && pnext == free[i + 1].start
      modifies data, this`free
      ensures free == Without(old(free)[i := Joined(old(free), i)], i + 1)
      ensures Space(data[..], g, low, used, free, i) && SameUsed(old(data[..]), data[..], g, low, used)
      ensures data[g.hdr + 7] <= old(data[g.hdr + 7])
    {
      hide Blocks, FreeList, Sum, SameUsed, Get2, Space, Put2;
      ghost var d := data[..];
      SpaceWeaken(d, g, low, used, free, i);
      CoalesceFacts(d, g, low, used, free, i);
      MergeKeeps(d, g, low, used, free, i);
      var frag := pnext - (pbegin + psize);
      data[g.hdr + 7] := data[g.hdr + 7] - frag;
      Get2Same(d, data[..], pnext);
      Get2Same(d, data[..], pnext + 2);
      var after, size := Word(pnext), pnext + Word(pnext + 2) - pbegin;
      Put2byte(data, pbegin, after);
      Put2byte(data, pbegin + 2, size);
      free := Without(free[i := Joined(free, i)], i + 1);
    }

    /** Join free blocks that are fewer than four bytes apart. */
    method Coalesce(ghost low: nat, ghost used: seq<Block>)
      requires Space(data[..], g, low, used, free, 0)
      modifies data, this`free
      ensures Space(data[..], g, low, used, free, |free|) && SameUsed(old(data[..]), data[..], g, low, used)
      ensures data[g.hdr + 7] <= old(data[g.hdr + 7])
    {
      hide Blocks, FreeList, Sum, SameUsed, Get2, Space, Put2;
      ghost var d0 := data[..];
      SpaceWeaken(d0, g, low, used, free, 0);
      SameUsedSelf(d0, g, low, used);
      var addr := g.hdr + 1;
      ghost var i := 0;
      LinkFact(d0, g, free, 0);
      var pbegin := Word(addr);
      while pbegin > 0
        invariant Space(data[..], g, low, used, free, i) && i <= |free| && g.Valid() && data.Length == g.usable
        invariant addr == LinkAt(g, free, i) && pbegin == LinkTo(free, i)
        invariant SameUsed(d0, data[..], g, low, used) && data[g.hdr + 7] <= d0[g.hdr + 7]
        decreases |free| - i
      {
        ghost var d, was := data[..], free;
        CoalesceFacts(d, g, low, used, free, i);
        var pnext, psize := Word(pbegin), Word(pbegin + 2);
        if pbegin + psize + 3 >= pnext && pnext > 0 {
          MergeNext(pbegin, pnext, psize, low, used, i);
          SameUsedJoin(d0, d, data[..], g, low, used);
          MergedLink(g, was, i);
        } else {
          SpacedNext(d, g, low, used, free, i);
          addr := pbegin;
          i := i + 1;
        }
        SpaceWeaken(data[..], g, low, used, free, i);
        LinkFact(data[..], g, free, i);
        pbegin := Word(addr);
      }
      SpaceWeaken(data[..], g, low, used, free, i);
      NoMoreBlocks(data[..], g, low, used, free, i, i);
      SpacedAll(data[..], g, low, used, free, i, |free|);
    }

    /** If the cell content area begins with a free block, it becomes part of the gap. */
    method AbsorbFirst(ghost low: nat, ghost used: seq<Block>)
      requires Space(data[..], g, low, used, free, |free|)
      modifies data, this`free
      ensures Space(data[..], g, low, used, free, |free|) && SameUsed(old(data[..]), data[..], g, low, used)
      ensures free != [] ==> free[0].start > Top(data[..], g)
      ensures data[g.hdr + 7] == old(data[g.hdr + 7])
    {
      hide Blocks, FreeList, Sum, SameUsed, Space, Put2;
      ghost var d := data[..];
      SpaceWeaken(d, g, low, used, free, |free|);
      SameUsedSelf(d, g, low, used);
      LinkFact(d, g, free, 0);
      if data[g.hdr + 1] == data[g.hdr + 5] && data[g.hdr + 2] == data[g.hdr + 6] {
        AbsorbFacts(d, g, low, used, free);
        DropFirstBlock(low, used);
      } else {
        NothingToAbsorb(d, g, low, used, free);
      }
    }

    /** The first free block is at the top of the content, which now begins after it. */
    method DropFirstBlock(ghost low: nat, ghost used: seq<Block>)
      requires Space(data[..], g, low, used, free, |free|) && free != [] && free[0].start == Top(data[..], g)
      modifies data, this`free
      ensures Space(data[..], g, low, used, free, |free|) && SameUsed(old(data[..]), data[..], g, low, used)
      ensures data[g.hdr + 7] == old(data[g.hdr + 7])
      ensures free != [] ==> free[0].start > Top(data[..], g)
    {
      hide Blocks, FreeList, Sum, SameUsed, Space, Put2, Get2;
      ghost var d := data[..];
      SpaceWeaken(d, g, low, used, free, |free|);
      LinkFact(d, g, free, 0);
      AbsorbFacts(d, g, low, used, free);
      DropFirstKeeps(d, g, low, used, free);
      var pbegin := Word(g.hdr + 1);
      data[g.hdr + 1], data[g.hdr + 2] := data[pbegin], data[pbegin + 1];
      CopiedLink(d, g.hdr + 1, pbegin);
      Get2Same(d, data[..], g.hdr + 5);
      Get2Same(d, data[..], pbegin + 2);
      Put2byte(data, g.hdr + 5, Word(g.hdr + 5) + Word(pbegin + 2));
      free := Without(free, 0);
    }

    /** Give a block back. */
    method FreeSpace(start: nat, size: nat, ghost low: nat, ghost used: seq<Block>)
      requires Space(data[..], g, low, used + [Block(start, Max(4, size))], free, |free|)
      modifies data, this`nFree, this`free
      ensures Space(data[..], g, low, used, free, |free|) && SameUsed(old(data[..]), data[..], g, low, used)
      ensures nFree == old(nFree) + Max(4, size)
      ensures data[g.hdr + 7] <= old(data[g.hdr + 7])
      ensures free != [] ==> free[0].start > Top(data[..], g)
    {
      hide Space, SameUsed;
      ghost var d0 := data[..];
      LinkFree(start, if size < 4 then 4 else size, low, used);
      ghost var d1 := data[..];
      Coalesce(low, used);
      ghost var d2 := data[..];
      AbsorbFirst(low, used);
      SameUsedJoin(d0, d1, d2, g, low, used);
      SameUsedJoin(d0, d2, data[..], g, low, used);
    }

    // ---------------------------------------------------------- defragmentPage

    /** Copy one cell below `brk` and point to it there. */
    method MoveCell(i: nat, pc: nat, brk: nat, size: nat, temp: array<Byte>, ghost d0: seq<Byte>)
      requires temp != data && |d0| == data.Length == temp.Length == g.usable && g.Valid()
      requires i < |cells| && AllWithin(cells, |d0|) && cells[i] == Block(pc, size)
      requires brk + size <= g.usable && g.CellOffset() + 2 * |cells| <= g.usable
      requires temp[pc..pc + size] == Slice(d0, cells[i])
      modifies data
      ensures data[..] == MoveOne(old(data[..]), d0, g, cells, i, brk)
    {
      ghost var d, cell := data[..], temp[pc..pc + size];
      forall x | 0 <= x < size {
        data[brk + x] := temp[pc + x];
      }
      assert data[..] == Overwrite(d, brk, cell);
      hide Overwrite;
      Put2byte(data, g.CellOffset() + 2 * i, brk);
    }

    /** Move every cell to the end of the page, from a copy of the content area. */
    method MoveCells(temp: array<Byte>) returns (brk: nat, ghost moved: seq<Block>)
      requires Sound(|cells|, []) && temp != data && temp.Length == g.usable
      requires forall x :: Top(data[..], g) <= x < g.usable ==> temp[x] == data[x]
      modifies data
      ensures AllWithin(cells, |old(data[..])|) && |moved| == |cells|
      ensures Moved(old(data[..]), data[..], g, cells, moved, brk)
    {
      hide Sum, Get2, Moved, Intact, CellSize, Slice, MoveOne, RightOf;
      ghost var d0, cs := data[..], cells;
      IntactSizes(d0, g, kind, cells, [], free);
      NothingMoved(d0, g, kind, cells, free);
      brk, moved := g.usable, [];
      var i := 0;
      while i < nCell
        invariant i <= nCell && |moved| == i && cs == cells && Moved(d0, data[..], g, cs, moved, brk)
      {
        var size: nat;
        size := MoveNext(temp, i, brk, d0, moved);
        brk := brk - size;
        moved := moved + [Block(brk, size)];
        i := i + 1;
      }
    }

    method MoveNext(temp: array<Byte>, i: nat, brk: nat, ghost d0: seq<Byte>, ghost moved: seq<Block>)
      returns (size: nat)
      requires temp != data && temp.Length == g.usable && g.Valid() && kind.Valid() && |d0| == data.Length == g.usable
               && i < |cells|
      requires |moved| == i && Moved(d0, data[..], g, cells, moved, brk) && AllWithin(cells, |d0|)
      requires forall x :: Top(d0, g) <= x < g.usable ==> temp[x] == d0[x]
      requires forall j :: 0 <= j < |cells| ==> cells[j].size >= 4 && Top(d0, g) <= cells[j].start
      requires forall j :: 0 <= j < |cells| ==> CellSize(kind, Slice(d0, cells[j])) == cells[j].size
      requires g.CellOffset() + 2 * |cells| <= g.usable - Sum(cells)
      modifies data
      ensures size <= brk && Moved(d0, data[..], g, cells, moved + [Block(brk - size, size)], brk - size)
    {
      hide Sum, Get2, Moved, CellSize, Slice, MoveOne;
      ghost var d := data[..];
      MovedFact(d0, d, g, cells, moved, brk);
      var pc := Word(g.CellOffset() + 2 * i);
      SliceCopied(d0, temp[..], Top(d0, g), cells[i]);
      CellExtends(kind, Slice(d0, cells[i]), temp[pc..]);
      size := CellSize(kind, temp[pc..]);
      MoveCell(i, pc, brk - size, size, temp, d0);
      MoveStep(d0, d, g, cells, moved, brk, data[..]);
    }

    /** Gather all free space in one gap. */
    method DefragmentPage()
      requires Sound(|cells|, [])
      modifies data, this`cells, this`free
      ensures Sound(|cells|, []) && |cells| == |old(cells)| && free == [] && data[g.hdr + 7] == 0
      ensures AllWithin(old(cells), data.Length) && AllWithin(cells, data.Length)
      ensures Contents() == old(ContentsOf(data[..], cells))
      ensures Sum(cells) == Sum(old(cells)) && Top(data[..], g) == g.usable - Sum(cells)
      ensures Fixed(data[..], g) == Fixed(old(data[..]), g)
    {
      hide Sum, Get2, Moved, Intact, CellSize, Slice, Finish, Put2, RightOf;
      ghost var d0 := data[..];
      IntactSizes(d0, g, kind, cells, [], free);
      NothingMoved(d0, g, kind, cells, free);
      var temp := new Byte[g.usable];
      var brk := Word(g.hdr + 5);
      forall x | brk <= x < g.usable {
        temp[x] := data[x];
      }
      assert data[..] == d0;
      ghost var moved;
      brk, moved := MoveCells(temp);
      ghost var d := data[..];
      MovedFact(d0, d, g, cells, moved, brk);
      Put2byte(data, g.hdr + 5, brk);
      data[g.hdr + 1], data[g.hdr + 2], data[g.hdr + 7] := 0, 0, 0;
      var addr := g.CellOffset() + 2 * nCell;
      forall x | addr <= x < brk {
        data[x] := 0;
      }
      assert data[..] == Finish(d, g, addr, brk) by {
        FinishIs(d, g, addr, brk, data[..]);
      }
      Finished(d0, d, g, kind, cells, free, moved, brk, data[..]);
      IntactSizes(data[..], g, kind, moved, [], []);
      cells, free := moved, [];
    }

    // ---------------------------------------------------------- allocateSpace

    /** First fit in the list of free blocks: its tail, or all of it if less than four bytes are left. */
    method TakeFree(n: nat, ghost low: nat, ghost used: seq<Block>) returns (addr: nat)
      requires Space(data[..], g, low, used, free, |free|) && 4 <= n && data[g.hdr + 7] < 60
      modifies data, this`free
      ensures addr == 0 ==> data[..] == old(data[..]) && free == old(free)
      ensures addr > 0 ==>
                && Space(data[..], g, low, used + [Block(addr, n)], free, |free|)
                && SameUsed(old(data[..]), data[..], g, low, used)
                && data[g.hdr + 7] <= 62 && Top(data[..], g) == Top(old(data[..]), g)
      ensures addr == 0 <==> TooSmall(old(free), |old(free)|, n)
      ensures addr > 0 ==> exists k :: HandedOut(old(free), free, k, n, addr)
    {
      hide Sum, Blocks, FreeList, Get2, SameUsed, Put2, Space;
      ghost var d := data[..];
      SpaceWeaken(d, g, low, used, free, |free|);
      LinkFact(d, g, free, 0);
      var nFrag := data[g.hdr + 7];
      var at := g.hdr + 1;
      ghost var k := 0;
      var pc := Word(at);
      while pc > 0
        invariant k <= |free| && at == LinkAt(g, free, k) && pc == LinkTo(free, k)
        invariant data[..] == d && free == old(free) && TooSmall(free, k, n)
        decreases |free| - k
      {
        TakeFacts(d, g, low, used, free, k);
        var size := Word(pc + 2);
        if size >= n {
          if size < n + 4 {
            TakeWholeKeeps(d, g, low, used, free, k, n);
            data[at], data[at + 1] := data[pc], data[pc + 1];
            CopiedLink(d, at, pc);
            data[g.hdr + 7] := nFrag + size - n;
            free := Without(free, k);
            assert HandedOut(old(free), free, k, n, pc);
            return pc;
          } else {
            TakeTailKeeps(d, g, low, used, free, k, n);
            Put2byte(data, pc + 2, size - n);
            free := free[k := Block(free[k].start, free[k].size - n)];
            assert HandedOut(old(free), free, k, n, pc + size - n);
            return pc + size - n;
          }
        }
        at := pc;
        k := k + 1;
        LinkFact(d, g, free, k);
        pc := Word(at);
      }
      NoMoreBlocks(d, g, low, used, free, |free|, k);
      return 0;
    }

    /** Hand out `nByte` bytes, at least four: from a free block, or from the gap, if need be after defragmenting. */
    method AllocateSpace(nByte: nat, ghost count: nat) returns (addr: nat)
      requires Sound(count, []) && (overflow == [] ==> nFree == g.usable - Low() - Sum(cells))
      requires var n := Max(4, nByte);
               count == |cells| || (free == [] && data[g.hdr + 7] == 0
                                    && g.CellOffset() + 2 * count + n <= Top(data[..], g))
      modifies data, this`nFree, this`cells, this`free
      ensures addr == 0 <==> old(nFree) < Max(4, nByte) || overflow != []
      ensures addr == 0 ==> data[..] == old(data[..]) && nFree == old(nFree) && cells == old(cells) && free == old(free)
      ensures addr > 0 ==>
                && nFree == old(nFree) - Max(4, nByte)
                && Sound(count, [Block(addr, Max(4, nByte))]) && Sum(cells) == Sum(old(cells))
                && AllWithin(cells, data.Length) && AllWithin(old(cells), data.Length)
                && Contents() == old(ContentsOf(data[..], cells))
                && (Top(data[..], g) >= Top(old(data[..]), g) - Max(4, nByte) || Top(data[..], g) == Low() + nFree)
      ensures addr > 0 ==>
                var n, room := Max(4, nByte), old(Top(data[..], g)) - (g.CellOffset() + 2 * count);
                if old(data[g.hdr + 7]) < 60 && !TooSmall(old(free), |old(free)|, n)
                then cells == old(cells) && exists k :: HandedOut(old(free), free, k, n, addr)
                else if old(data[g.hdr + 7]) < 60 && room >= n
                then cells == old(cells) && free == old(free) && addr == Top(data[..], g) == old(Top(data[..], g)) - n
                else free == [] && data[g.hdr + 7] == 0 && addr == Top(data[..], g)
      ensures Fixed(data[..], g) == Fixed(old(data[..]), g)
    {
      hide Sum, Get2, Intact, CellSize, Slice, Put2, Space, SameUsed, CellsFit, ContentsOf, RightOf, TooSmall,
           HandedOut;
      var n := if nByte < 4 then 4 else nByte;
      if nFree < n || overflow != [] {
        return 0;
      }
      nFree := nFree - n;
      ghost var d, low := data[..], g.CellOffset() + 2 * count;
      IntactFacts(d, g, kind, count, cells, [], free);
      var nFrag := data[g.hdr + 7];
      if nFrag < 60 {
        ghost var free0 := free;
        addr := TakeFree(n, low, cells);
        if addr > 0 {
          StaysIntact(d, data[..], g, kind, count, cells, [], free0, [Block(addr, n)], free);
          IntactFacts(data[..], g, kind, count, cells, [Block(addr, n)], free);
          return;
        }
      }
      var top := Word(g.hdr + 5);
      var nCells := Word(g.hdr + 3);
      if nFrag >= 60 || g.CellOffset() + 2 * nCells > top - n {
        DefragmentPage();
        top := Word(g.hdr + 5);
      }
      addr := TakeGap(n, count);
    }

    /** The end of the gap. */
    method TakeGap(n: nat, ghost count: nat) returns (top: nat)
      requires Sound(count, []) && 4 <= n && g.CellOffset() + 2 * count + n <= Top(data[..], g)
      modifies data
      ensures top > 0 && Sound(count, [Block(top, n)]) && top == Top(data[..], g) == Top(old(data[..]), g) - n
      ensures data[g.hdr + 7] == old(data[g.hdr + 7])
      ensures AllWithin(cells, data.Length) && Contents() == old(ContentsOf(data[..], cells))
      ensures Fixed(data[..], g) == Fixed(old(data[..]), g)
    {
      hide Sum, Get2, Intact, CellSize, Slice, Put2, Space, SameUsed, CellsFit, ContentsOf, RightOf;
      ghost var e, low := data[..], g.CellOffset() + 2 * count;
      IntactFacts(e, g, kind, count, cells, [], free);
      TakeGapKeeps(e, g, low, cells, free, |free|, n);
      top := Word(g.hdr + 5) - n;
      Put2byte(data, g.hdr + 5, top);
      StaysIntact(e, data[..], g, kind, count, cells, [], free, [Block(top, n)], free);
      IntactFacts(data[..], g, kind, count, cells, [Block(top, n)], free);
    }

    // ---------------------------------------------------------- dropCell

    method CloseUp(at: nat, n: nat)
      requires at + 2 * n + 2 <= data.Length
      modifies data
      ensures data[..] == ClosedUp(old(data[..]), at, n)
    {
      hide ClosedUp;
      ghost var d := data[..];
      NothingShifted(d, at);
      var i, ptr := 0, at;
      while i < n
        invariant 0 <= i <= n && ptr == at + 2 * i && data[..] == ClosedUp(d, at, i)
      {
        ClosedUpStep(d, at, i);
        data[ptr] := data[ptr + 2];
        data[ptr + 1] := data[ptr + 3];
        i, ptr := i + 1, ptr + 2;
      }
    }

    /** Remove the `idx`-th cell of the page. */
    method DropCell(idx: nat, sz: nat)
      requires Valid() && overflow == [] && idx < |cells| && sz == cells[idx].size
      modifies data, this`nCell, this`nFree, this`cells, this`free
      ensures Valid() && Contents() == RemoveAt(old(Contents()), idx)
      ensures nCell == old(nCell) - 1 && nFree == old(nFree) + sz + 2
      ensures Fixed(data[..], g) == Fixed(old(data[..]), g)
    {
      hide Sum, Get2, Put2, Space, SameUsed, Pointers, CellsFit, ClosedUp, Intact, RightOf;
      ghost var d, was, low, free0 := data[..], cells, Low(), free;
      ghost var rest := Without(was, idx);
      DropFacts(d, g, kind, was, free, idx);
      var ptr := g.CellOffset() + 2 * idx;
      var pc := Word(ptr);
      FreeSpace(pc, sz, low, rest);
      ghost var e := data[..];
      DroppedIntact(d, e, g, kind, was, free0, idx, free);
      CloseUp(ptr, nCell - idx - 1);
      nCell := nCell - 1;
      Put2byte(data, g.hdr + 3, nCell);
      nFree := nFree + 2;
      cells := rest;
      CellDropped(e, g, kind, was, idx, free, data[..]);
      IntactFacts(data[..], g, kind, |rest|, rest, [], free);
    }

    // ---------------------------------------------------------- insertCell

    method OpenUp(at: nat, n: nat)
      requires at + 2 * n + 2 <= data.Length
      modifies data
      ensures data[..] == Opened(old(data[..]), at, n)
    {
      hide Opened;
      ghost var d := data[..];
      NothingShifted(d, at + 2 * n);
      var ptr := at + 2 * n;
      ghost var m := 0;
      while ptr > at
        invariant 0 <= m && ptr >= at && ptr + 2 * m == at + 2 * n && data[..] == Opened(d, ptr, m)
        invariant (ptr - at) % 2 == 0
      {
        ptr := ptr - 2;
        OpenedStep(d, ptr, m);
        data[ptr + 2] := data[ptr];
        data[ptr + 3] := data[ptr + 1];
        m := m + 1;
      }
    }

    method FillCell(idx: nat, cell: seq<Byte>, nSkip: nat)
      requires Sound(|cells|, [Block(idx, |cell|)])
      requires nSkip <= kind.ChildPtrSize() && nSkip <= |cell| && CellSize(kind, cell) == |cell|
      modifies data
      ensures Sound(|cells|, [Block(idx, |cell|)]) && AllWithin(cells, data.Length)
              && Contents() == old(ContentsOf(data[..], cells))
      ensures Top(data[..], g) == Top(old(data[..]), g)
      ensures Fixed(data[..], g) == Fixed(old(data[..]), g)
      ensures idx + |cell| <= data.Length && CellSize(kind, Slice(data[..], Block(idx, |cell|))) == |cell|
      ensures Slice(data[..], Block(idx, |cell|))[nSkip..] == cell[nSkip..]
    {
      hide Sum, Get2, Intact, CellSize, CellsFit, RightOf;
      ghost var d, b := data[..], Block(idx, |cell|);
      IntactFacts(d, g, kind, |cells|, cells, [b], free);
      ExtraInside(d, g, kind, cells, b, free);
      forall x | nSkip <= x < |cell| {
        data[idx + x] := cell[x];
      }
      Filled(d, data[..], g, kind, cells, b, free, cell, nSkip);
    }

    method LinkCell(i: nat, idx: nat, ghost b: Block)
      requires Sound(|cells|, [b]) && i <= |cells| && b.start == idx && Low() + 2 <= Top(data[..], g)
      requires b.End() <= data.Length && CellSize(kind, Slice(data[..], b)) == b.size
      modifies data, this`nCell, this`cells
      ensures cells == With(old(cells), i, b) && Sound(|cells|, []) && Sum(cells) == Sum(old(cells)) + b.size
      ensures AllWithin(old(cells), data.Length) && AllWithin(cells, data.Length)
      ensures Fixed(data[..], g) == Fixed(old(data[..]), g)
      ensures Contents() == InsertAt(old(ContentsOf(data[..], cells)), i, old(Slice(data[..], b)))
    {
      hide Sum, Get2, Put2, Opened, Intact, CellSize, RightOf;
      ghost var d, was := data[..], cells;
      IntactFacts(d, g, kind, |was|, was, [b], free);
      ExtraInside(d, g, kind, was, b, free);
      var ins := g.CellOffset() + 2 * i;
      OpenUp(ins, nCell - i);
      Put2byte(data, ins, idx);
      nCell := nCell + 1;
      Put2byte(data, g.hdr + 3, nCell);
      cells := With(was, i, b);
      CellInserted(d, g, kind, was, i, b, free, data[..]);
      IntactFacts(data[..], g, kind, |cells|, cells, [], free);
    }

    /** Put a cell that is known to fit on the page itself; its first `nSkip` bytes are left as they were. */
    method PlaceCell(i: nat, cell: seq<Byte>, nSkip: nat)
      requires Valid() && overflow == [] && i <= |cells| && nSkip <= kind.ChildPtrSize() && nSkip <= |cell|
      requires CellSize(kind, cell) == |cell| && |cell| + 2 <= nFree
      modifies data, this`nCell, this`nFree, this`cells, this`free
      ensures Valid() && nFree == old(nFree) - |cell| - 2 && |cells| == |old(cells)| + 1
      ensures RemoveAt(Contents(), i) == old(Contents())
      ensures Fixed(data[..], g) == Fixed(old(data[..]), g)
      ensures |Contents()[i]| == |cell| && Contents()[i][nSkip..] == cell[nSkip..]
      ensures var roomy := old(Low()) + 2 + |cell| <= old(Top(data[..], g));
              && (roomy && old(data[g.hdr + 7]) < 60 ==> Without(cells, i) == old(cells)) && (!roomy ==> free == [])
    {
      hide Sum, Get2, Intact, CellSize, CellsFit, Space, InsertAt, RemoveAt, With, Without, Slice, RightOf, TooSmall,
           HandedOut;
      IntactFacts(data[..], g, kind, |cells|, cells, [], free);
      var sz := |cell|;
      var top, end := Word(g.hdr + 5), g.CellOffset() + 2 * nCell + 2;
      if end > top - sz {
        DefragmentPage();
        NoneTooSmall(sz);
      }
      IntactFacts(data[..], g, kind, |cells|, cells, [], free);
      var idx := AllocateSpace(sz, nCell);
      FillCell(idx, cell, nSkip);
      nFree := nFree - 2;
      ghost var b, was := Block(idx, sz), Contents();
      ghost var stored := Slice(data[..], b);
      ghost var kept := cells;
      LinkCell(i, idx, b);
      WithThenWithout(kept, i, b);
      InsertThenRemove(was, i, stored);
    }

    /** Insert a cell before the `i`-th: on the page if there is room, else into the list of
        those that wait, copied to `temp` if given. The first `nSkip` bytes need not be copied. */
    method InsertCell(i: nat, cell: seq<Byte>, temp: Option<seq<Byte>>, nSkip: nat)
      requires Valid() && i <= |cells| + |overflow| && |overflow| < MAX_OVERFLOW
      requires CellSize(kind, cell) == |cell| && nSkip <= kind.ChildPtrSize() && nSkip <= |cell|
      requires temp.Some? ==> |temp.value| >= |cell|
      modifies data, this`nCell, this`nFree, this`overflow, this`cells, this`free
      ensures Valid() && |Logical()| == |old(Logical())| + 1
      ensures RemoveAt(Logical(), i) == old(Logical())
      ensures Fixed(data[..], g) == Fixed(old(data[..]), g)
      ensures |Logical()[i]| == |cell| && Logical()[i][nSkip..] == cell[nSkip..]
      ensures overflow == [] <==> old(overflow) == [] && |cell| + 2 <= old(nFree)
      ensures |overflow| <= |old(overflow)| + 1
      ensures overflow == [] ==> nFree == old(nFree) - |cell| - 2
      ensures overflow != [] ==> cells == old(cells) && data[..] == old(data[..])
    {
      hide Intact, CellSize, Sum, Inserted, CellsFit, Get2, RightOf;
      IntactFacts(data[..], g, kind, |cells|, cells, [], free);
      if overflow != [] || |cell| + 2 > nFree {
        var stored := if temp.Some? then temp.value[..nSkip] + cell[nSkip..] else cell;
        InsertedNext(Contents(), overflow, Overflow(i, stored));
        assert stored[nSkip..] == cell[nSkip..];
        SameSize(kind, cell, stored, nSkip);
        overflow := overflow + [Overflow(i, stored)];
        nFree := 0;
      } else {
        PlaceCell(i, cell, nSkip);
        IntactFacts(data[..], g, kind, |cells|, cells, [], free);
        NothingInserted(Contents(), []);
        NothingInserted(old(Contents()), []);
      }
    }

    // ---------------------------------------------------------- findOverflowCell

    /** The bytes of a cell on the page itself. */
    method FindCell(iCell: nat) returns (cell: seq<Byte>)
      requires Valid() && iCell < nCell
      ensures cell == Contents()[iCell]
    {
      hide Sum, Get2, CellSize, Slice;
      ghost var d := data[..];
      IntactSizes(d, g, kind, cells, [], free);
      FindFacts(d, g, kind, cells, free, iCell);
      var pc := Word(g.CellOffset() + 2 * iCell);
      SliceCopied(d, d, 0, cells[iCell]);
      CellExtends(kind, Slice(d, cells[iCell]), data[pc..]);
      return data[pc..pc + CellSize(kind, data[pc..])];
    }

    /** The cell at a place in the list that counts the waiting cells as inserted. */
    method FindOverflowCell(iCell: nat) returns (cell: seq<Byte>)
      requires Valid() && iCell < |Logical()|
      ensures cell == Logical()[iCell]
    {
      hide Intact, Inserted, ContentsOf, Sum, InsertAt, CellsFit, Get2, Space, RightOf;
      IntactFacts(data[..], g, kind, |cells|, cells, [], free);
      ghost var page := Contents();
      var i, k := |overflow|, iCell;
      LogicalPrefix(|cells|, overflow, |overflow|);
      assert overflow[..|overflow|] == overflow;
      while i > 0
        invariant 0 <= i <= |overflow| && 0 <= k < |cells| + i && LogicalOk(|cells|, overflow[..i])
        invariant Inserted(page, overflow[..i])[k] == Inserted(page, overflow)[iCell]
      {
        i := i - 1;
        InsertedBack(page, overflow, i, k);
        if overflow[i].idx <= k {
          if overflow[i].idx == k {
            return overflow[i].cell;
          }
          k := k - 1;
        }
      }
      NothingInserted(page, overflow);
      cell := FindCell(k);
    }

    // ---------------------------------------------------------- child pointers

    /** put4byte on a cell: make `ptr` the child of the `iCell`-th cell, waiting or not. */
    method PutChild(iCell: nat, ptr: seq<Byte>)
      requires Valid() && !g.leaf && |ptr| == 4 && iCell < |Logical()| && |Logical()[iCell]| >= 4
      modifies data, this`overflow
      ensures Valid() && Logical() == old(Logical())[iCell := ptr + old(Logical())[iCell][4..]]
      ensures Fixed(data[..], g) == Fixed(old(data[..]), g) && Right() == old(Right())
      ensures |overflow| == |old(overflow)| && nFree == old(nFree)
    {
      hide Intact, Inserted, ContentsOf, Sum, InsertAt, CellsFit, Get2, Space, WhereIs, RightOf, CellSize;
      IntactFacts(data[..], g, kind, |cells|, cells, [], free);
      ghost var page, d := Contents(), data[..];
      ghost var x := ptr + Logical()[iCell][4..];
      var i, k := |overflow|, iCell;
      assert overflow[..|overflow|] == overflow;
      NothingInserted(page, overflow);
      while i > 0
        invariant 0 <= i <= |overflow| && 0 <= k < |cells| + i && LogicalOk(|cells|, overflow[..i])
        invariant WhereIs(overflow[..i], k) == WhereIs(overflow, iCell)
        invariant overflow == old(overflow) && data[..] == d
      {
        i := i - 1;
        WhereIsBack(overflow, i, k);
        InsertedBack(page, overflow, i, k);
        if overflow[i].idx <= k {
          if overflow[i].idx == k {
            ReplacedWaiting(page, overflow, iCell, x);
            assert data[..] == d;
            assert (ptr + overflow[i].cell[4..])[4..] == overflow[i].cell[4..];
            SameSize(kind, overflow[i].cell, ptr + overflow[i].cell[4..], 4);
            overflow := overflow[i := Overflow(overflow[i].idx, ptr + overflow[i].cell[4..])];
            return;
          }
          k := k - 1;
        }
      }
      NotWaiting(overflow, k);
      ReplacedOnPage(page, overflow, iCell, x);
      WriteChild(k, ptr);
    }

    method WriteChild(k: nat, ptr: seq<Byte>)
      requires Valid() && !g.leaf && |ptr| == 4 && k < |cells|
      modifies data
      ensures Valid() && Contents() == old(Contents())[k := ptr + old(Contents())[k][4..]]
      ensures Fixed(data[..], g) == Fixed(old(data[..]), g)
    {
      hide Intact, Inserted, ContentsOf, Sum, InsertAt, CellsFit, Get2, Space, RightOf;
      ghost var d := data[..];
      IntactFacts(d, g, kind, |cells|, cells, [], free);
      FindFacts(d, g, kind, cells, free, k);
      CellBounds(d, g, Low(), cells, free, k);
      var pc := Word(g.CellOffset() + 2 * k);
      forall x | 0 <= x < 4 {
        data[pc + x] := ptr[x];
      }
      ChildWritten(d, data[..], g, kind, cells, free, k, ptr);
      IntactFacts(data[..], g, kind, |cells|, cells, [], free);
    }

    /** put4byte in the header: make `ptr` the right child. */
    method PutRight(ptr: seq<Byte>)
      requires Valid() && !g.leaf && |ptr| == 4
      modifies data
      ensures Valid() && Logical() == old(Logical()) && Right() == ptr
      ensures data[..g.hdr + 1] == old(data[..g.hdr + 1])
    {
      hide Intact, Inserted, ContentsOf, Sum, InsertAt, CellsFit, Get2, Space;
      ghost var d := data[..];
      IntactFacts(d, g, kind, |cells|, cells, [], free);
      forall x | 0 <= x < 4 {
        data[g.hdr + 8 + x] := ptr[x];
      }
      RightWritten(d, data[..], g, kind, cells, free, ptr);
      IntactFacts(data[..], g, kind, |cells|, cells, [], free);
    }

    // ---------------------------------------------------------- zeroPage, initPage, assemblePage

    /** A new page, holding no cells. */
    constructor (g: Dims, kind: CellKind, flags: Byte)
      requires g.Valid() && kind.Valid() && kind.leaf == g.leaf && kind.usable == g.usable
      ensures fresh(data) && this.g == g && this.kind == kind
      ensures Valid() && Logical() == [] && nFree == g.usable - g.hdr - (if g.leaf then 8 else 12)
      ensures data[g.hdr] == flags
    {
      this.g, this.kind := g, kind;
      data := new Byte[g.usable];
      new;
      ZeroPage(flags);
    }

    /** Make the page hold no cells, whatever it held. */
    method ZeroPage(flags: Byte)
      requires data.Length == g.usable && g.Valid() && kind.Valid() && kind.leaf == g.leaf && kind.usable == g.usable
      modifies data, this`nCell, this`nFree, this`overflow, this`cells, this`free
      ensures Valid() && cells == [] && free == [] && overflow == [] && Logical() == []
      ensures nFree == g.usable - g.hdr - (if g.leaf then 8 else 12)
      ensures data[g.hdr + 7] == 0 && Top(data[..], g) == g.usable
      ensures data[..g.hdr] == old(data[..g.hdr]) && data[g.hdr] == flags
    {
      hide CellSize, Intact, Get2, Put2, RightOf;
      forall x | g.hdr <= x < g.usable {
        data[x] := 0;
      }
      data[g.hdr] := flags;
      Put2byte(data, g.hdr + 5, g.usable);
      nFree := g.usable - (g.hdr + 8 + if g.leaf then 0 else 4);
      overflow, nCell, cells, free := [], 0, [], [];
      SumNone();
      ZeroedIntact(data[..], g, kind);
      IntactFacts(data[..], g, kind, 0, [], [], []);
      EmptyValid(this);
    }

    /** The bytes that are free if these are the free blocks, less the room of the cells' pointers. */
    ghost function FreeBytes(blocks: seq<Block>): int
      requires g.Valid() && data.Length == g.usable
      reads data
    {
      data[g.hdr + 7] + Get2(data[..], g.hdr + 5) + Sum(blocks) - (g.CellOffset() + 2 * Get2(data[..], g.hdr + 3))
    }

    /** Read the header and the list of free blocks; false if they cannot belong to a page in order: more cells than a
        page of that size can have, none where there should be one, blocks that are no chain, or more free bytes than
        the page has. */
    method InitPage(pageSize: nat, needsCell: bool, ghost cells0: seq<Block>, ghost free0: seq<Block>)
      returns (ok: bool)
      requires g.Valid() && data.Length == g.usable <= pageSize
      modifies this`nCell, this`nFree, this`overflow, this`cells, this`free
      ensures Intact(data[..], g, kind, |cells0|, cells0, [], free0) && (cells0 != [] || !needsCell) ==>
                ok && Valid() && cells == cells0 && free == free0 && overflow == []
      ensures ok ==>
                && FreeChain(data[..], g, free) && nFree == FreeBytes(free) < g.usable && overflow == []
                && nCell == Get2(data[..], g.hdr + 3) <= (pageSize - 8) / 3 && (nCell > 0 || !needsCell)
      ensures FreeChain(data[..], g, free0) && FreeBytes(free0) < g.usable
              && Get2(data[..], g.hdr + 3) <= (pageSize - 8) / 3 && (Get2(data[..], g.hdr + 3) > 0 || !needsCell)
              ==> ok && free == free0
    {
      hide Sum, Get2, Intact, FreeChain, CellsFit, CellSize;
      ghost var d := data[..];
      overflow := [];
      nCell := Word(g.hdr + 3);
      if Intact(d, g, kind, |cells0|, cells0, [], free0) && (cells0 != [] || !needsCell) {
        InitFacts(d, g, kind, cells0, free0);
        IntactFacts(d, g, kind, |cells0|, cells0, [], free0);
        InitEnd(d, g, kind, cells0, free0);
      }
      if nCell > (pageSize - 8) / 3 || (nCell == 0 && needsCell) {
        return false;
      }
      var sum: int;
      ghost var found;
      ok, sum, found := SumFree(free0);
      if !ok {
        return;
      }
      nFree := data[g.hdr + 7] + Word(g.hdr + 5) - (g.CellOffset() + 2 * nCell) + sum;
      free, cells := found, cells0;
      return nFree < g.usable;
    }

    /** Follow the list of free blocks, adding up their sizes; false if it leaves the page or goes back. */
    method SumFree(ghost free0: seq<Block>) returns (ok: bool, total: nat, ghost found: seq<Block>)
      requires g.Valid() && data.Length == g.usable
      ensures FreeChain(data[..], g, free0) ==> ok && found == free0
      ensures ok ==> FreeChain(data[..], g, found) && total == Sum(found)
    {
      hide Sum, Get2, Listed, FreeChain;
      ghost var d := data[..];
      ghost var chain := FreeChain(d, g, free0);
      var pc := Word(g.hdr + 1);
      found, total := [], 0;
      NothingListed(d, g, pc);
      SumNone();
      while pc > 0
        invariant Listed(d, g, found, pc) && total == Sum(found)
        invariant forall k :: 0 <= k < |found| ==> found[k].start > 0
        invariant chain ==> |found| <= |free0| && found == free0[..|found|]
        decreases if pc == 0 then 0 else 0x10000 - pc
      {
        if chain {
          InitStep(d, g, free0, found, pc);
        }
        if pc > g.usable - 4 {
          return false, total, found;
        }
        var next, size := Word(pc), Word(pc + 2);
        if next > 0 && next <= pc + size + 3 {
          return false, total, found;
        }
        ListedNext(d, g, found, pc, next, size);
        found := found + [Block(pc, size)];
        total := total + size;
        pc := next;
      }
      AllListed(d, g, found);
      if chain {
        InitAll(d, g, free0, found);
      }
      ok := true;
    }

    /** Fill an empty page with cells, one after the other. */
    method AssemblePage(apCell: seq<seq<Byte>>)
      requires Valid() && overflow == [] && cells == [] && free == [] && data[g.hdr + 7] == 0
      requires forall j :: 0 <= j < |apCell| ==> CellSize(kind, apCell[j]) == |apCell[j]|
      requires TotalSize(apCell) + 2 * |apCell| <= nFree
      modifies data, this`nCell, this`nFree, this`cells, this`free
      ensures Valid() && Contents() == apCell
      ensures Fixed(data[..], g) == Fixed(old(data[..]), g)
      ensures nFree == old(nFree) - TotalSize(apCell) - 2 * |apCell|
    {
      hide Sum, Get2, Intact, CellSize, Put2, Space, TotalSize, RightOf;
      ghost var d0 := data[..];
      assert cells == [] && free == [] && |cells| == 0;
      IntactFacts(d0, g, kind, 0, [], [], []);
      var n, totalSize, j := |apCell|, 0, 0;
      NoTotal(apCell);
      while j < n
        invariant 0 <= j <= n && totalSize == TotalSize(apCell[..j])
        modifies {}
      {
        TotalStep(apCell, j);
        totalSize := totalSize + |apCell[j]|;
        j := j + 1;
      }
      assert data[..] == d0;
      EmptyTop(d0, g, kind);
      TotalRest(apCell, 0);
      SumNone();
      assert apCell[..n] == apCell && cells == [] && free == [];
      Put2byte(data, g.hdr + 3, n);
      StartAssembly(d0, g, kind, n, data[..]);
      if n > 0 {
        PlaceAll(apCell, totalSize);
      }
      nCell := n;
      assert apCell[..0] == [];
    }

    /** The pointers and cells themselves. */
    method PlaceAll(apCell: seq<seq<Byte>>, totalSize: nat)
      requires Sound(|apCell|, []) && overflow == [] && cells == [] && free == [] && data[g.hdr + 7] == 0
               && apCell != []
      requires forall j :: 0 <= j < |apCell| ==> CellSize(kind, apCell[j]) == |apCell[j]|
      requires totalSize == TotalSize(apCell) && nFree == g.usable - g.CellOffset() && totalSize + 2 * |apCell| <= nFree
      requires Top(data[..], g) == g.usable && totalSize >= 4
      modifies data, this`nFree, this`cells, this`free
      ensures |cells| == |apCell| && Intact(data[..], g, kind, |cells|, cells, [], free)
              && AllWithin(cells, data.Length) && Contents() == apCell
      ensures nFree == old(nFree) - totalSize - 2 * |apCell| && Sum(cells) == totalSize
      ensures Fixed(data[..], g) == Fixed(old(data[..]), g)
    {
      hide Sum, Get2, Intact, CellSize, Put2, Space, TotalSize, Rest, RightOf;
      var n := |apCell|;
      SumNone();
      IntactFacts(data[..], g, kind, n, cells, [], free);
      var cellptr := g.CellOffset();
      var cellbody: nat := AllocateSpace(totalSize, n);
      nFree := nFree - 2 * n;
      assert |Contents()| == 0;
      NoTotal(apCell);
      RestWhole(cellbody, totalSize);
      ghost var left: nat := totalSize;
      var i := 0;
      while i < n
        invariant 0 <= i <= n && |cells| == i && cellptr == g.CellOffset() + 2 * i
                  && left == totalSize - TotalSize(apCell[..i])
        invariant Intact(data[..], g, kind, n, cells, Rest(cellbody, left), free) && AllWithin(cells, data.Length)
        invariant Contents() == apCell[..i] && Sum(cells) == totalSize - left
        invariant Fixed(data[..], g) == Fixed(old(data[..]), g)
        modifies data, this`cells
      {
        TotalStep(apCell, i);
        TotalRest(apCell, i + 1);
        assert i + 1 == n ==> apCell[..i + 1] == apCell;
        ghost var d, c := data[..], apCell[i];
        PlaceOne(cellptr, cellbody, apCell[i], n, left);
        cellptr := cellptr + 2;
        cellbody := cellbody + |apCell[i]|;
        left := left - |apCell[i]|;
        assert apCell[..i + 1] == apCell[..i] + [apCell[i]];
        i := i + 1;
      }
      assert apCell[..n] == apCell;
      RestWhole(cellbody, 0);
    }

    method PlaceOne(cellptr: nat, cellbody: nat, cell: seq<Byte>, ghost n: nat, ghost left: nat)
      requires Intact(data[..], g, kind, n, cells, Rest(cellbody, left), free) && |cells| < n
               && cellptr == g.CellOffset() + 2 * |cells|
      requires CellSize(kind, cell) == |cell| <= left && (|cell| == left || |cell| + 4 <= left)
      modifies data, this`cells
      ensures cells == old(cells) + [Block(cellbody, |cell|)]
      ensures Fixed(data[..], g) == Fixed(old(data[..]), g)
      ensures Intact(data[..], g, kind, n, cells, Rest(cellbody + |cell|, left - |cell|), free)
      ensures AllWithin(old(cells), data.Length) && AllWithin(cells, data.Length)
      ensures Contents() == old(ContentsOf(data[..], cells)) + [cell] && Sum(cells) == Sum(old(cells)) + |cell|
    {
      hide Sum, Get2, Intact, CellSize, Put2, Overwrite, RightOf;
      ghost var d, b := data[..], Block(cellbody, left);
      IntactFacts(d, g, kind, n, cells, [b], free);
      RestInside(d, g, kind, n, cells, b, free);
      SumAppend(cells, [Block(cellbody, |cell|)]);
      SumOne(Block(cellbody, |cell|));
      Put2byte(data, cellptr, cellbody);
      forall x | 0 <= x < |cell| {
        data[cellbody + x] := cell[x];
      }
      assert data[..] == AssembleOne(d, g, |cells|, cellbody, cell) by {
        OverwriteIs(Put2(d, cellptr, cellbody), cellbody, cell, data[..]);
      }
      AssembleStep(d, g, kind, n, cells, free, cellbody, left, cell, data[..]);
      cells := cells + [Block(cellbody, |cell|)];
    }
  }

  lemma {:induction false} SameUsedSelf(d: seq<Byte>, g: Dims, low: nat, used: seq<Block>)
    ensures SameUsed(d, d, g, low, used)
  {}

  lemma {:induction false} FitsAt(d: seq<Byte>, g: Dims, low: nat, used: seq<Block>, free: seq<Block>, k: nat, b: Block)
    requires g.Valid() && |d| == g.usable && Blocks(g, low, Top(d, g), used, free, 0) && k <= |free|
    requires k > 0 ==> free[k - 1].start < b.start
    requires LinkTo(free, k) == 0 || b.start <= LinkTo(free, k)
    ensures Fits(free, k, b)
  {
    if k < |free| {
      assert g.CellOffset() <= low <= free[k].start;
    }
  }

  lemma {:induction false} InsertFreeFrag(d: seq<Byte>, g: Dims, low: nat, used: seq<Block>, b: Block, free: seq<Block>,
                                          k: nat)
    requires Space(d, g, low, used + [b], free, 0) && Fits(free, k, b)
    requires LinkAt(g, free, k) + 2 <= g.usable && b.start + 4 <= g.usable && b.size < 0x10000
             && LinkTo(free, k) < 0x10000
    ensures InsertFree(d, g, free, k, b)[g.hdr + 7] == d[g.hdr + 7]
  {
    var all := used + [b];
    assert all[|used|] == b && low <= b.start;
    if k > 0 {
      assert low <= free[k - 1].start;
    }
  }

  lemma {:induction false} CoalesceFacts(d: seq<Byte>, g: Dims, low: nat, used: seq<Block>, free: seq<Block>, i: nat)
    requires Space(d, g, low, used, free, i) && i <= |free| && LinkTo(free, i) > 0
    ensures i < |free| && free[i].start + 4 <= |d| && Get2(d, free[i].start) == LinkTo(free, i + 1)
    ensures Get2(d, free[i].start + 2) == free[i].size
    ensures i + 1 < |free| ==>
              && free[i + 1].start + 4 <= |d| && Get2(d, free[i + 1].start) == LinkTo(free, i + 2)
                 && free[i + 1].start > 0
              && Get2(d, free[i + 1].start + 2) == free[i + 1].size && free[i].start + 4 <= free[i + 1].start
              && g.hdr + 8 <= free[i].start
  {
    hide Sum, Get2;
    assert LinkAt(g, free, i + 1) == free[i].start;
    if i + 1 < |free| {
      assert LinkAt(g, free, i + 2) == free[i + 1].start;
      assert free[i].End() <= free[i + 1].start;
    }
  }

  lemma {:induction false} TakeFacts(d: seq<Byte>, g: Dims, low: nat, used: seq<Block>, free: seq<Block>, k: nat)
    requires Space(d, g, low, used, free, |free|) && k <= |free| && LinkTo(free, k) > 0
    ensures k < |free| && free[k].start + 4 <= |d| && Get2(d, free[k].start) == LinkTo(free, k + 1)
    ensures Get2(d, free[k].start + 2) == free[k].size && LinkAt(g, free, k) + 2 <= |d|
    ensures g.hdr + 8 <= free[k].start && free[k].End() <= |d| && LinkAt(g, free, k) != g.hdr + 6
            && LinkAt(g, free, k) != g.hdr + 7
  {
    hide Sum, Get2;
    LinkFact(d, g, free, k);
    assert LinkAt(g, free, k + 1) == free[k].start;
  }

  lemma {:induction false} IntactFacts(d: seq<Byte>, g: Dims, kind: CellKind, count: nat, cells: seq<Block>,
                                       extra: seq<Block>, free: seq<Block>)
    requires Intact(d, g, kind, count, cells, extra, free)
    ensures g.Valid() && |d| == g.usable && kind.Valid() && AllWithin(cells, |d|)
            && Get2(d, g.hdr + 3) == count >= |cells|
    ensures kind.leaf == g.leaf && kind.usable == g.usable
    ensures Space(d, g, g.CellOffset() + 2 * count, cells + extra, free, |free|) && d[g.hdr + 7] <= 62
    ensures extra == [] ==> Space(d, g, g.CellOffset() + 2 * count, cells, free, |free|)
    ensures g.CellOffset() + 2 * count <= Top(d, g) <= g.usable
  {
    hide Sum, Get2;
    assert cells + [] == cells;
  }

  lemma {:induction false} DropFacts(d: seq<Byte>, g: Dims, kind: CellKind, cells: seq<Block>, free: seq<Block>, i: nat)
    requires Intact(d, g, kind, |cells|, cells, [], free) && i < |cells|
    ensures g.Valid() && |d| == g.usable && AllWithin(cells, |d|) && d[g.hdr + 7] <= 62
    ensures g.CellOffset() + 2 * |cells| <= |d| && Get2(d, g.CellOffset() + 2 * i) == cells[i].start
    ensures cells[i].size >= 4 && cells[i] == Block(cells[i].start, Max(4, cells[i].size))
    ensures Space(d, g, g.CellOffset() + 2 * |cells|, Without(cells, i) + [cells[i]], free, |free|)
    ensures Sum(Without(cells, i)) == Sum(cells) - cells[i].size
  {
    hide Sum, Get2, FreeList;
    assert cells + [] == cells;
    TakenOut(d, g, g.CellOffset() + 2 * |cells|, cells, i, free, |free|);
    SumWithout(cells, i);
  }

  lemma {:induction false} DroppedIntact(d: seq<Byte>, e: seq<Byte>, g: Dims, kind: CellKind, cells: seq<Block>,
                                         free: seq<Block>, i: nat, free': seq<Block>)
    requires Intact(d, g, kind, |cells|, cells, [], free) && i < |cells| && |e| == |d|
    requires Space(e, g, g.CellOffset() + 2 * |cells|, Without(cells, i), free', |free'|)
    requires SameUsed(d, e, g, g.CellOffset() + 2 * |cells|, Without(cells, i))
    ensures Pointers(e, g, cells) && CellsFit(e, kind, Without(cells, i)) && AllWithin(cells, |d|)
    ensures ContentsOf(e, Without(cells, i)) == RemoveAt(ContentsOf(d, cells), i)
    ensures kind.leaf == g.leaf && kind.usable == g.usable && Fixed(e, g) == Fixed(d, g)
  {
    hide Sum, Get2, Space, CellSize;
    SameUsedRight(d, e, g, g.CellOffset() + 2 * |cells|, Without(cells, i));
    forall j | 0 <= j < |cells| ensures Get2(e, g.CellOffset() + 2 * j) == cells[j].start {
      Get2Same(d, e, g.CellOffset() + 2 * j);
    }
    var rest := Without(cells, i);
    forall j | 0 <= j < |rest| ensures Slice(e, rest[j]) == Slice(d, rest[j]) {
      assert rest[j] == cells[if j < i then j else j + 1];
    }
  }

  lemma {:induction false} ExtraInside(d: seq<Byte>, g: Dims, kind: CellKind, cells: seq<Block>, b: Block,
                                       free: seq<Block>)
    requires Intact(d, g, kind, |cells|, cells, [b], free)
    ensures g.CellOffset() + 2 * |cells| <= Top(d, g) <= b.start && b.End() <= |d| && |cells| + 1 < 0x10000
  {
    hide Sum, Get2, FreeList;
    assert (cells + [b])[|cells|] == b;
  }

  /** Writing into a block that has been handed out disturbs nothing, and makes it hold the cell. */
  lemma {:induction false} Filled(d: seq<Byte>, e: seq<Byte>, g: Dims, kind: CellKind, cells: seq<Block>, b: Block,
                                  free: seq<Block>, cell: seq<Byte>, nSkip: nat)
    requires Intact(d, g, kind, |cells|, cells, [b], free) && |e| == |d| && b.End() <= |d| && b.size == |cell|
    requires nSkip <= kind.ChildPtrSize() && nSkip <= |cell| && CellSize(kind, cell) == |cell|
    requires forall x :: 0 <= x < |d| ==> e[x] == if b.start + nSkip <= x < b.End() then cell[x - b.start] else d[x]
    ensures Intact(e, g, kind, |cells|, cells, [b], free) && AllWithin(cells, |d|)
            && ContentsOf(e, cells) == ContentsOf(d, cells)
    ensures Slice(e, b)[nSkip..] == cell[nSkip..] && CellSize(kind, Slice(e, b)) == b.size
    ensures Top(e, g) == Top(d, g) && Fixed(e, g) == Fixed(d, g)
  {
    hide Sum, Get2, Space, SameUsed, Pointers, CellsFit, CellSize;
    var low, all := g.CellOffset() + 2 * |cells|, cells + [b];
    assert all[|cells|] == b;
    WriteUsed(d, e, g, low, all, free, |free|, |cells|);
    assert Without(all, |cells|) == cells;
    StaysIntact(d, e, g, kind, |cells|, cells, [b], free, [b], free);
    IntactFacts(d, g, kind, |cells|, cells, [b], free);
    assert forall x :: nSkip <= x < |cell| ==> Slice(e, b)[x] == cell[x];
    assert Slice(e, b)[nSkip..] == cell[nSkip..];
    SameSize(kind, cell, Slice(e, b), nSkip);
  }

  lemma {:induction false} SameSize(kind: CellKind, s: seq<Byte>, t: seq<Byte>, skip: nat)
    requires kind.Valid() && |s| == |t| && skip <= kind.ChildPtrSize() && skip <= |s| && s[skip..] == t[skip..]
    ensures CellSize(kind, t) == CellSize(kind, s)
  {
    CellSkips(kind, s, t, skip);
  }

  lemma {:induction false} FindFacts(d: seq<Byte>, g: Dims, kind: CellKind, cells: seq<Block>, free: seq<Block>, i: nat)
    requires Intact(d, g, kind, |cells|, cells, [], free) && i < |cells|
    ensures g.CellOffset() + 2 * |cells| <= |d| && Get2(d, g.CellOffset() + 2 * i) == cells[i].start
            && cells[i].End() <= |d|
  {
    hide Get2, Sum, Space;
  }

  lemma {:induction false} MergedLink(g: Dims, free: seq<Block>, i: nat)
    requires i + 1 < |free| && free[i].start <= free[i + 1].End()
    ensures LinkAt(g, Without(free[i := Joined(free, i)], i + 1), i) == LinkAt(g, free, i)
  {}

  lemma {:induction false} AbsorbFacts(d: seq<Byte>, g: Dims, low: nat, used: seq<Block>, free: seq<Block>)
    requires Space(d, g, low, used, free, |free|) && Get2(d, g.hdr + 1) == Get2(d, g.hdr + 5)
    ensures free != [] && free[0].start == Top(d, g) == Get2(d, g.hdr + 1) && g.hdr + 8 <= free[0].start
            && free[0].start + 4 <= |d|
    ensures Get2(d, free[0].start) == LinkTo(free, 1) && Get2(d, free[0].start + 2) == free[0].size
  {
    hide Sum, Get2;
    LinkFact(d, g, free, 0);
    LinkFact(d, g, free, 1);
  }

  ghost predicate TooSmall(free: seq<Block>, k: nat, n: nat)
    requires k <= |free|
  {
    forall j :: 0 <= j < k ==> free[j].size < n
  }

  lemma {:induction false} NoneTooSmall(n: nat)
    ensures TooSmall([], 0, n)
  {}

  lemma {:induction false} WithThenWithout(bs: seq<Block>, i: nat, b: Block)
    requires i <= |bs|
    ensures Without(With(bs, i, b), i) == bs
  {}

  /** Of the first free block with room for `n` bytes the end is handed out, or the whole if the rest could be no
      block. */
  ghost predicate HandedOut(was: seq<Block>, now: seq<Block>, k: nat, n: nat, addr: nat) {
    && k < |was| && TooSmall(was, k, n) && n <= was[k].size
    && (if was[k].size < n + 4 then addr == was[k].start && now == Without(was, k)
        else addr == was[k].End() - n && now == was[k := Block(was[k].start, was[k].size - n)])
  }

  lemma {:induction false} NothingToAbsorb(d: seq<Byte>, g: Dims, low: nat, used: seq<Block>, free: seq<Block>)
    requires Space(d, g, low, used, free, |free|)
    requires d[g.hdr + 1] != d[g.hdr + 5] || d[g.hdr + 2] != d[g.hdr + 6]
    ensures free != [] ==> free[0].start > Top(d, g)
  {
    hide Sum;
    LinkFact(d, g, free, 0);
  }

  /** Copying two bytes is storing the number they hold. */
  lemma {:induction false} CopiedLink(d: seq<Byte>, i: nat, j: nat)
    requires i + 2 <= |d| && j + 2 <= |d|
    ensures d[i := d[j]][i + 1 := d[j + 1]] == Put2(d, i, Get2(d, j))
  {}

  lemma {:induction false} NoMoreBlocks(d: seq<Byte>, g: Dims, low: nat, used: seq<Block>, free: seq<Block>, sep: int,
                                        i: nat)
    requires Space(d, g, low, used, free, sep) && i <= |free| && LinkTo(free, i) == 0
    ensures i == |free|
  {}

  lemma {:induction false} EmptyValid(p: MemPage)
    requires p.g.Valid() && p.kind.Valid() && p.nCell == 0 && p.cells == [] && p.overflow == []
             && Intact(p.data[..], p.g, p.kind, 0, [], [], p.free)
    requires p.nFree == p.g.usable - p.g.CellOffset()
    ensures p.Valid() && p.Logical() == []
  {
    hide CellSize, Intact, Get2, Put2;
    SumNone();
    IntactFacts(p.data[..], p.g, p.kind, 0, [], [], p.free);
  }
}
