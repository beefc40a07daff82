/**
  The NOR flash behind the boot loader, and the driver boot_spi_flash.c.

  The device itself obeys NOR semantics: erasing sets every bit of a range, programming can
  only clear bits.  A command leaves the device busy for an arbitrary, finite number of polls,
  and no command may be issued, and no byte read, while it is busy.
*/
module SpiFlash {

  import opened Words

  const PAGE_SIZE: nat := 256
  const SIZE_4K: nat := 0x1000
  const SIZE_32K: nat := 0x8000
  const SIZE_64K: nat := 0x1_0000
  /** One bit of the prohibit bitmap for each 64K block of the largest device, 16M. */
  const BLOCKS: nat := 256
  const MAX_CAPACITY: nat := 0x100_0000

  // ----- what the device does to its cells -----

  /** The cells after [lo, hi) was erased. */
  function EraseRange(cells: seq<bv8>, lo: nat, hi: nat): (r: seq<bv8>)
    ensures |r| == |cells|
  {
    seq(|cells|, i requires 0 <= i < |cells| => if lo <= i < hi then 0xFF else cells[i])
  }

  /** The cells after data was programmed at off: bits can only be cleared. */
  function Program(cells: seq<bv8>, off: nat, data: seq<bv8>): (r: seq<bv8>)
    ensures |r| == |cells|
  {
    seq(|cells|, i requires 0 <= i < |cells| =>
      if off <= i < off + |data| then cells[i] & data[i - off] else cells[i])
  }

  /** Programming never sets a bit; it stores data over erased cells, and again over itself. */
  lemma ProgramClears(cells: seq<bv8>, off: nat, data: seq<bv8>, i: nat)
    requires i < |cells|
    ensures Program(cells, off, data)[i] & cells[i] == Program(cells, off, data)[i]
    ensures off <= i < off + |data| && (cells[i] == 0xFF || cells[i] == data[i - off]) ==>
              Program(cells, off, data)[i] == data[i - off]
    ensures !(off <= i < off + |data|) ==> Program(cells, off, data)[i] == cells[i]
  {
  }

  lemma EraseSplit(cells: seq<bv8>, lo: nat, mid: nat, hi: nat)
    requires lo <= mid <= hi
    ensures EraseRange(EraseRange(cells, lo, mid), mid, hi) == EraseRange(cells, lo, hi)
  {
  }

  lemma NothingDone(cells: seq<bv8>, off: nat)
    ensures EraseRange(cells, off, off) == cells && Program(cells, off, []) == cells
  {
  }

  lemma ProgramSplit(cells: seq<bv8>, off: nat, a: seq<bv8>, b: seq<bv8>)
    ensures Program(Program(cells, off, a), off + |a|, b) == Program(cells, off, a + b)
  {
  }

  // ----- one erase or program command -----

  /** Multiples of the larger sizes are multiples of the smallest. */
  lemma AlignedMore(offset: nat)
    ensures offset % SIZE_64K == 0 || offset % SIZE_32K == 0 ==> offset % SIZE_4K == 0
  {
    if offset % SIZE_64K == 0 {
      Quotient(16 * (offset / SIZE_64K), SIZE_4K, 0);
    } else if offset % SIZE_32K == 0 {
      Quotient(8 * (offset / SIZE_32K), SIZE_4K, 0);
    }
  }

  /** The size that one erase command covers, or -1. */
  function Piece(offset: nat, size: nat): (p: int)
    ensures p > 0 <==> offset % SIZE_4K == 0 && size >= SIZE_4K
    ensures p == -1 || p >= SIZE_4K
  {
    AlignedMore(offset);
    if offset % SIZE_64K == 0 && size >= SIZE_64K then SIZE_64K
    else if offset % SIZE_32K == 0 && size >= SIZE_32K then SIZE_32K
    else if offset % SIZE_4K == 0 && size >= SIZE_4K then SIZE_4K
    else -1
  }

  /** An erase piece lies inside one 64K block, so looking up its first byte is enough for all of it. */
  lemma PieceInOneBlock(offset: nat, size: nat)
    requires Piece(offset, size) > 0
    ensures Piece(offset, size) <= size
    ensures (offset + Piece(offset, size) - 1) / SIZE_64K == offset / SIZE_64K
    ensures (offset + Piece(offset, size)) % SIZE_4K == 0 && offset % SIZE_4K == 0
    ensures Piece(offset, size) % SIZE_4K == 0
  {
    var p := Piece(offset, size);
    PieceAligned(offset, size);
    hide Piece;
    if p == SIZE_64K {
      AlignedInBlock64K(offset);
    } else if p == SIZE_32K {
      AlignedInBlock32K(offset);
    } else {
      AlignedInBlock4K(offset);
    }
  }

  lemma PieceAligned(offset: nat, size: nat)
    requires Piece(offset, size) > 0
    ensures Piece(offset, size) in {SIZE_4K, SIZE_32K, SIZE_64K} && Piece(offset, size) <= size
    ensures offset % Piece(offset, size) == 0
  {
  }

  lemma AlignedInBlock64K(offset: nat)
    requires offset % SIZE_64K == 0
    ensures (offset + SIZE_64K - 1) / SIZE_64K == offset / SIZE_64K
    ensures offset % SIZE_4K == 0 && (offset + SIZE_64K) % SIZE_4K == 0
  {
    var q := offset / SIZE_64K;
    Quotient(q, SIZE_64K, SIZE_64K - 1);
    Quotient(16 * q, SIZE_4K, 0);
    Quotient(16 * q + 16, SIZE_4K, 0);
  }

  lemma AlignedInBlock32K(offset: nat)
    requires offset % SIZE_32K == 0
    ensures (offset + SIZE_32K - 1) / SIZE_64K == offset / SIZE_64K
    ensures offset % SIZE_4K == 0 && (offset + SIZE_32K) % SIZE_4K == 0
  {
    var q := offset / SIZE_32K;
    Quotient(8 * q, SIZE_4K, 0);
    Quotient(8 * q + 8, SIZE_4K, 0);
    Quotient(q / 2, SIZE_64K, SIZE_32K * (q % 2));
    Quotient(q / 2, SIZE_64K, SIZE_32K * (q % 2) + SIZE_32K - 1);
  }

  lemma AlignedInBlock4K(offset: nat)
    requires offset % SIZE_4K == 0
    ensures (offset + SIZE_4K - 1) / SIZE_64K == offset / SIZE_64K
    ensures (offset + SIZE_4K) % SIZE_4K == 0
  {
    var q := offset / SIZE_4K;
    Quotient(q + 1, SIZE_4K, 0);
    Quotient(q / 16, SIZE_64K, SIZE_4K * (q % 16));
    Quotient(q / 16, SIZE_64K, SIZE_4K * (q % 16) + SIZE_4K - 1);
  }

  /** On a device of whole 64K blocks, a piece that starts inside ends inside. */
  lemma PieceInside(capacity: nat, offset: nat, size: nat)
    requires capacity % SIZE_64K == 0
    ensures offset < capacity && Piece(offset, size) > 0 ==> offset + Piece(offset, size) <= capacity
  {
    if offset < capacity && Piece(offset, size) > 0 {
      PieceInOneBlock(offset, size);
      var last := offset + Piece(offset, size) - 1;
      hide Piece;
      var c := capacity / SIZE_64K;
      assert capacity == c * SIZE_64K && offset / SIZE_64K < c;
      assert last < (last / SIZE_64K + 1) * SIZE_64K;
    }
  }

  /** The bytes that one program command covers: it never leaves the page. */
  function Chunk(offset: nat, size: nat): (n: nat)
    ensures n <= size && (size > 0 ==> n > 0)
    ensures n > 0 ==> (offset + n - 1) / PAGE_SIZE == offset / PAGE_SIZE
    ensures n == size || (offset + n) % PAGE_SIZE == 0
  {
    Min(AlignDown(offset + PAGE_SIZE, PAGE_SIZE) - offset, size)
  }

  // ----- how far the looping operations get -----

  ghost predicate Shape(capacity: nat, prohibit: seq<bool>)
  {
    capacity <= MAX_CAPACITY && capacity % SIZE_64K == 0 && |prohibit| == BLOCKS
  }

  /** The bytes that the erase loop erases before it finishes or is refused. */
  ghost function EraseReach(capacity: nat, prohibit: seq<bool>, offset: nat, size: nat): (n: nat)
    requires Shape(capacity, prohibit)
    ensures n <= size
    decreases size
  {
    if size == 0 || offset + size > capacity || prohibit[offset / SIZE_64K] then 0
    else
      var p := Piece(offset, size);
      if p < 0 then 0 else p + EraseReach(capacity, prohibit, offset + p, size - p)
  }

  /** The bytes that the write loop programs before it finishes or is refused. */
  ghost function WriteReach(capacity: nat, prohibit: seq<bool>, offset: nat, size: nat): (n: nat)
    requires Shape(capacity, prohibit)
    ensures n <= size
    decreases size
  {
    if size == 0 || offset + size > capacity || prohibit[offset / SIZE_64K] then 0
    else
      var c := Chunk(offset, size);
      c + WriteReach(capacity, prohibit, offset + c, size - c)
  }

  lemma EraseReachStep(capacity: nat, prohibit: seq<bool>, offset: nat, size: nat)
    requires Shape(capacity, prohibit) && size > 0
    ensures Piece(offset, size) != 0 && Piece(offset, size) <= size
    ensures EraseReach(capacity, prohibit, offset, size)
         == if offset + size > capacity || prohibit[offset / SIZE_64K] || Piece(offset, size) < 0 then 0
            else Piece(offset, size)
                 + EraseReach(capacity, prohibit, offset + Piece(offset, size), size - Piece(offset, size))
  {
  }

  lemma WriteReachStep(capacity: nat, prohibit: seq<bool>, offset: nat, size: nat)
    requires Shape(capacity, prohibit) && size > 0
    ensures WriteReach(capacity, prohibit, offset, size)
         == if offset + size > capacity || prohibit[offset / SIZE_64K] then 0
            else Chunk(offset, size)
                 + WriteReach(capacity, prohibit, offset + Chunk(offset, size), size - Chunk(offset, size))
  {
  }

  /** No 64K block that [lo, hi) touches is write prohibited. */
  ghost predicate Permitted(prohibit: seq<bool>, lo: nat, hi: nat)
  {
    forall i :: lo <= i < hi ==> 0 <= i / SIZE_64K < |prohibit| && !prohibit[i / SIZE_64K]
  }

  lemma NotPermitted(prohibit: seq<bool>, lo: nat, hi: nat)
    requires lo < hi
    ensures lo / SIZE_64K < |prohibit| && prohibit[lo / SIZE_64K] ==> !Permitted(prohibit, lo, hi)
  {
  }

  lemma NotPermittedAt(prohibit: seq<bool>, lo: nat, i: nat, hi: nat)
    ensures lo <= i < hi && i / SIZE_64K < |prohibit| && prohibit[i / SIZE_64K] ==> !Permitted(prohibit, lo, hi)
  {
  }

  lemma NoPiece(offset: nat, size: nat)
    requires size > 0 && Piece(offset, size) < 0
    ensures offset % SIZE_4K != 0 || size % SIZE_4K != 0
  {
  }

  lemma PermittedStep(prohibit: seq<bool>, lo: nat, mid: nat, hi: nat)
    requires lo < mid <= hi && (mid - 1) / SIZE_64K == lo / SIZE_64K
    ensures Permitted(prohibit, lo, hi)
       <==> 0 <= lo / SIZE_64K < |prohibit| && !prohibit[lo / SIZE_64K] && Permitted(prohibit, mid, hi)
    ensures Permitted(prohibit, hi, hi)
  {
    if 0 <= lo / SIZE_64K < |prohibit| && !prohibit[lo / SIZE_64K] && Permitted(prohibit, mid, hi) {
      forall i | lo <= i < hi
        ensures 0 <= i / SIZE_64K < |prohibit| && !prohibit[i / SIZE_64K]
      {
        if i < mid {
          assert lo / SIZE_64K <= i / SIZE_64K <= (mid - 1) / SIZE_64K;
        }
      }
    } else if Permitted(prohibit, lo, hi) {
      assert 0 <= lo / SIZE_64K < |prohibit| && !prohibit[lo / SIZE_64K];
      assert Permitted(prohibit, mid, hi);
      assert false;
    }
  }

  /** How far one gets from `at` towards `end` until the first prohibited 64K block. */
  ghost function FirstRefused(prohibit: seq<bool>, at: nat, end: nat): (r: nat)
    requires |prohibit| == BLOCKS && at <= end <= MAX_CAPACITY
    ensures at <= r <= end
    decreases end - at
  {
    if at == end || prohibit[at / SIZE_64K] then at
    else FirstRefused(prohibit, Min(NextBlock(at), end), end)
  }

  function NextBlock(at: nat): (r: nat)
    ensures at < r
  {
    AlignDown(at, SIZE_64K) + SIZE_64K
  }

  lemma {:induction false} FirstRefusedIs(prohibit: seq<bool>, at: nat, end: nat)
    requires |prohibit| == BLOCKS && at <= end <= MAX_CAPACITY
    ensures var r := FirstRefused(prohibit, at, end);
            && Permitted(prohibit, at, r)
            && (r < end ==> prohibit[r / SIZE_64K] && (r == at || r % SIZE_64K == 0))
    decreases end - at
  {
    if at < end && !prohibit[at / SIZE_64K] {
      var mid := Min(NextBlock(at), end);
      FirstRefusedIs(prohibit, mid, end);
      BlockToNext(at, mid);
      PermittedStep(prohibit, at, mid, FirstRefused(prohibit, at, end));
    }
  }

  lemma BlockToNext(at: nat, mid: nat)
    requires at < mid <= NextBlock(at)
    ensures (mid - 1) / SIZE_64K == at / SIZE_64K
    ensures mid == NextBlock(at) ==> mid % SIZE_64K == 0
  {
    var q := at / SIZE_64K;
    Quotient(q + 1, SIZE_64K, 0);
    Quotient(q, SIZE_64K, mid - 1 - q * SIZE_64K);
  }

  /** The stopping place is determined by what it says. */
  lemma FirstRefusedUnique(prohibit: seq<bool>, at: nat, end: nat, r: nat)
    requires |prohibit| == BLOCKS && at <= r <= end <= MAX_CAPACITY
    requires Permitted(prohibit, at, r) && (r < end ==> prohibit[r / SIZE_64K])
    ensures FirstRefused(prohibit, at, end) == r
  {
    FirstRefusedIs(prohibit, at, end);
    hide FirstRefused;
    var f := FirstRefused(prohibit, at, end);
    NotPermittedAt(prohibit, at, f, r);
    NotPermittedAt(prohibit, at, r, f);
  }

  lemma FirstRefusedEnd(prohibit: seq<bool>, at: nat, end: nat)
    requires |prohibit| == BLOCKS && at <= end <= MAX_CAPACITY
    ensures FirstRefused(prohibit, at, end) == end <==> Permitted(prohibit, at, end)
  {
    FirstRefusedIs(prohibit, at, end);
    hide FirstRefused;
    if Permitted(prohibit, at, end) {
      FirstRefusedUnique(prohibit, at, end, end);
    }
  }

  /** A step inside one permitted block does not change the stopping place. */
  lemma FirstRefusedStep(prohibit: seq<bool>, at: nat, mid: nat, end: nat)
    requires |prohibit| == BLOCKS && at < mid <= end <= MAX_CAPACITY
    requires (mid - 1) / SIZE_64K == at / SIZE_64K && !prohibit[at / SIZE_64K]
    ensures FirstRefused(prohibit, at, end) == FirstRefused(prohibit, mid, end)
  {
    var r := FirstRefused(prohibit, mid, end);
    FirstRefusedIs(prohibit, mid, end);
    hide FirstRefused;
    PermittedStep(prohibit, at, mid, r);
    FirstRefusedUnique(prohibit, at, end, r);
  }

  lemma FirstRefusedAtOnce(prohibit: seq<bool>, at: nat, end: nat)
    requires |prohibit| == BLOCKS && at <= end <= MAX_CAPACITY
    requires at == end || prohibit[at / SIZE_64K]
    ensures FirstRefused(prohibit, at, end) == at
  {
  }

  /** The erase loop gets exactly as far as the first prohibited block. */
  lemma {:induction false} EraseReachIs(capacity: nat, prohibit: seq<bool>, offset: nat, size: nat)
    requires Shape(capacity, prohibit) && offset + size <= capacity
    requires offset % SIZE_4K == 0 && size % SIZE_4K == 0
    ensures offset + EraseReach(capacity, prohibit, offset, size) == FirstRefused(prohibit, offset, offset + size)
    decreases size
  {
    hide Piece, EraseReach, FirstRefused;
    if size == 0 {
      FirstRefusedAtOnce(prohibit, offset, offset);
      NothingReached(capacity, prohibit, offset);
    } else {
      EraseReachStep(capacity, prohibit, offset, size);
      var p := Piece(offset, size);
      if prohibit[offset / SIZE_64K] {
        FirstRefusedAtOnce(prohibit, offset, offset + size);
      } else {
        PieceExists(offset, size);
        PieceInOneBlock(offset, size);
        Quotient(size / SIZE_4K - p / SIZE_4K, SIZE_4K, 0);
        FirstRefusedStep(prohibit, offset, offset + p, offset + size);
        EraseReachIs(capacity, prohibit, offset + p, size - p);
      }
    }
  }

  lemma PieceExists(offset: nat, size: nat)
    requires offset % SIZE_4K == 0 && size % SIZE_4K == 0 && size > 0
    ensures 0 < Piece(offset, size) <= size
  {
  }

  lemma NothingReached(capacity: nat, prohibit: seq<bool>, offset: nat)
    requires Shape(capacity, prohibit)
    ensures EraseReach(capacity, prohibit, offset, 0) == 0 == WriteReach(capacity, prohibit, offset, 0)
  {
  }

  /** So does the write loop. */
  lemma {:induction false} WriteReachIs(capacity: nat, prohibit: seq<bool>, offset: nat, size: nat)
    requires Shape(capacity, prohibit) && offset + size <= capacity
    ensures offset + WriteReach(capacity, prohibit, offset, size) == FirstRefused(prohibit, offset, offset + size)
    decreases size
  {
    hide Chunk, WriteReach, FirstRefused;
    if size == 0 {
      FirstRefusedAtOnce(prohibit, offset, offset);
      NothingReached(capacity, prohibit, offset);
    } else {
      WriteReachStep(capacity, prohibit, offset, size);
      if prohibit[offset / SIZE_64K] {
        FirstRefusedAtOnce(prohibit, offset, offset + size);
      } else {
        var c := Chunk(offset, size);
        PageInBlock(offset, c);
        FirstRefusedStep(prohibit, offset, offset + c, offset + size);
        WriteReachIs(capacity, prohibit, offset + c, size - c);
      }
    }
  }

  /** An erase request that the driver carries out in full. */
  ghost predicate Erasable(capacity: nat, prohibit: seq<bool>, offset: nat, size: nat)
  {
    || size == 0
    || (offset % SIZE_4K == 0 && size % SIZE_4K == 0
        && offset + size <= capacity && Permitted(prohibit, offset, offset + size))
  }

  /** After a granted piece, what is left of the request decides. */
  lemma ErasableStep(capacity: nat, prohibit: seq<bool>, offset: nat, size: nat)
    requires Shape(capacity, prohibit) && 0 < size && offset + size <= capacity && !prohibit[offset / SIZE_64K]
    requires Piece(offset, size) >= 0
    ensures var p := Piece(offset, size);
            && p <= size
            && (Erasable(capacity, prohibit, offset, size) <==> Erasable(capacity, prohibit, offset + p, size - p))
  {
    hide Piece, Permitted;
    var p := Piece(offset, size);
    PieceInOneBlock(offset, size);
    PermittedStep(prohibit, offset, offset + p, offset + size);
    AlignedRest(size, p);
  }

  lemma AlignedRest(size: nat, p: nat)
    requires p <= size && p % SIZE_4K == 0
    ensures (size - p) % SIZE_4K == 0 <==> size % SIZE_4K == 0
  {
    var q := p / SIZE_4K;
    assert size == q * SIZE_4K + (size - p);
    AddMultiple(q, SIZE_4K, size - p);
  }

  lemma {:induction false} EraseReachesAll(capacity: nat, prohibit: seq<bool>, offset: nat, size: nat)
    requires Shape(capacity, prohibit)
    ensures EraseReach(capacity, prohibit, offset, size) == size
       <==> Erasable(capacity, prohibit, offset, size)
    decreases size
  {
    hide Piece, EraseReach, Permitted;
    if size != 0 {
      EraseReachStep(capacity, prohibit, offset, size);
      var p := Piece(offset, size);
      if offset + size > capacity || prohibit[offset / SIZE_64K] {
        NotPermitted(prohibit, offset, offset + size);
      } else if p < 0 {
        NoPiece(offset, size);
      } else {
        hide Erasable;
        ErasableStep(capacity, prohibit, offset, size);
        EraseReachesAll(capacity, prohibit, offset + p, size - p);
      }
    }
  }

  lemma {:induction false} WriteReachesAll(capacity: nat, prohibit: seq<bool>, offset: nat, size: nat)
    requires Shape(capacity, prohibit)
    ensures WriteReach(capacity, prohibit, offset, size) == size
       <==> size == 0 || (offset + size <= capacity && Permitted(prohibit, offset, offset + size))
    decreases size
  {
    hide Chunk, WriteReach, Permitted;
    if size != 0 {
      WriteReachStep(capacity, prohibit, offset, size);
      if offset + size > capacity || prohibit[offset / SIZE_64K] {
        NotPermitted(prohibit, offset, offset + size);
      } else {
        var c := Chunk(offset, size);
        PageInBlock(offset, c);
        PermittedStep(prohibit, offset, offset + c, offset + size);
        WriteReachesAll(capacity, prohibit, offset + c, size - c);
      }
    }
  }

  lemma PageInBlock(offset: nat, c: nat)
    requires c > 0 && (offset + c - 1) / PAGE_SIZE == offset / PAGE_SIZE
    ensures (offset + c - 1) / SIZE_64K == offset / SIZE_64K
  {
    assert forall x: nat :: x / SIZE_64K == (x / PAGE_SIZE) / 256;
  }

  // ----- the commands that reach the device -----

  datatype Command = Erased(offset: nat, size: nat) | Programmed(offset: nat, size: nat)

  /** Some command lies outside the device, at least in part. */
  ghost predicate Strays(cmds: seq<Command>, capacity: nat)
  {
    exists i :: 0 <= i < |cmds| && cmds[i].offset + cmds[i].size > capacity
  }

  lemma StraysMore(cmds: seq<Command>, c: Command, capacity: nat)
    ensures Strays(cmds + [c], capacity) <==> Strays(cmds, capacity) || c.offset + c.size > capacity
  {
    var more := cmds + [c];
    if c.offset + c.size > capacity {
      assert more[|cmds|] == c;
    } else if Strays(cmds, capacity) {
      var i :| 0 <= i < |cmds| && cmds[i].offset + cmds[i].size > capacity;
      assert more[i] == cmds[i];
    }
  }

  /** The commands erase [from, to), in order. */
  ghost predicate Erases(cmds: seq<Command>, from: nat, to: nat)
    decreases |cmds|
  {
    if cmds == [] then from == to
    else
      var c := cmds[|cmds| - 1];
      c.Erased? && c.size > 0 && c.offset + c.size == to && Erases(cmds[..|cmds| - 1], from, c.offset)
  }

  lemma {:induction false} ErasesForward(cmds: seq<Command>, from: nat, to: nat)
    requires Erases(cmds, from, to)
    ensures from <= to && (cmds != [] ==> from < to)
    decreases |cmds|
  {
    if cmds != [] {
      ErasesForward(cmds[..|cmds| - 1], from, cmds[|cmds| - 1].offset);
    }
  }

  /** The commands program [from, to), in order. */
  ghost predicate Writes(cmds: seq<Command>, from: nat, to: nat)
    decreases |cmds|
  {
    if cmds == [] then from == to
    else
      var c := cmds[|cmds| - 1];
      c.Programmed? && c.size > 0 && c.offset + c.size == to && Writes(cmds[..|cmds| - 1], from, c.offset)
  }

  /**
    The commands erase [lo, erased) and program [off, written), each in order, erasing only
    behind everything programmed, and programming only what is erased.
  */
  ghost predicate Tidy(cmds: seq<Command>, lo: nat, off: nat, erased: nat, written: nat)
    decreases |cmds|
  {
    if cmds == [] then erased == lo && written == off
    else
      var c, rest := cmds[|cmds| - 1], cmds[..|cmds| - 1];
      match c
      case Erased(o, n) => o + n == erased && (written == off || written <= o) && Tidy(rest, lo, off, o, written)
      case Programmed(o, n) => o + n == written <= erased && Tidy(rest, lo, off, erased, o)
  }

  lemma TidyMore(cmds: seq<Command>, c: Command, lo: nat, off: nat, erased: nat, written: nat)
    requires Tidy(cmds, lo, off, erased, written)
    ensures c.Erased? && c.offset == erased && (written == off || written <= erased) ==>
              Tidy(cmds + [c], lo, off, erased + c.size, written)
    ensures c.Programmed? && c.offset == written && written + c.size <= erased ==>
              Tidy(cmds + [c], lo, off, erased, written + c.size)
  {
    assert (cmds + [c])[..|cmds|] == cmds;
  }

  lemma {:induction false} TidyErases(cmds: seq<Command>, more: seq<Command>, lo: nat, off: nat,
                                      erased: nat, written: nat, to: nat)
    requires Tidy(cmds, lo, off, erased, written) && (written == off || written <= erased) && Erases(more, erased, to)
    ensures erased <= to && Tidy(cmds + more, lo, off, to, written)
    decreases |more|
  {
    if more == [] {
      assert cmds + more == cmds;
    } else {
      var c, rest := more[|more| - 1], more[..|more| - 1];
      TidyErases(cmds, rest, lo, off, erased, written, c.offset);
      TidyMore(cmds + rest, c, lo, off, c.offset, written);
      assert cmds + rest + [c] == cmds + more;
    }
  }

  lemma {:induction false} TidyWrites(cmds: seq<Command>, more: seq<Command>, lo: nat, off: nat,
                                      erased: nat, written: nat, to: nat)
    requires Tidy(cmds, lo, off, erased, written) && to <= erased && Writes(more, written, to)
    ensures written <= to && Tidy(cmds + more, lo, off, erased, to)
    decreases |more|
  {
    if more == [] {
      assert cmds + more == cmds;
    } else {
      var c, rest := more[|more| - 1], more[..|more| - 1];
      TidyWrites(cmds, rest, lo, off, erased, written, c.offset);
      TidyMore(cmds + rest, c, lo, off, erased, c.offset);
      assert cmds + rest + [c] == cmds + more;
    }
  }

  lemma {:induction false} TidyBounds(cmds: seq<Command>, lo: nat, off: nat, erased: nat, written: nat, i: nat)
    requires Tidy(cmds, lo, off, erased, written) && i < |cmds|
    ensures lo <= erased && off <= written
    ensures cmds[i].Erased? ==> lo <= cmds[i].offset && cmds[i].offset + cmds[i].size <= erased
    ensures cmds[i].Programmed? ==> off <= cmds[i].offset && cmds[i].offset + cmds[i].size <= written
    decreases |cmds|
  {
    var c, rest := cmds[|cmds| - 1], cmds[..|cmds| - 1];
    var e, w := if c.Erased? then c.offset else erased, if c.Erased? then written else c.offset;
    if rest != [] {
      TidyBounds(rest, lo, off, e, w, if i < |rest| then i else 0);
    }
  }

  /** No byte is erased twice, programmed twice, or erased after it was programmed. */
  lemma {:induction false} TidyOnce(cmds: seq<Command>, lo: nat, off: nat, erased: nat, written: nat, i: nat, j: nat)
    requires Tidy(cmds, lo, off, erased, written) && i < j < |cmds|
    requires cmds[i].Programmed? || cmds[j].Erased?
    ensures cmds[i].size == 0 || cmds[j].size == 0
         || cmds[i].offset + cmds[i].size <= cmds[j].offset
    decreases |cmds|
  {
    var c, rest := cmds[|cmds| - 1], cmds[..|cmds| - 1];
    var e, w := if c.Erased? then c.offset else erased, if c.Erased? then written else c.offset;
    if j < |rest| {
      TidyOnce(rest, lo, off, e, w, i, j);
    } else {
      TidyBounds(rest, lo, off, e, w, i);
    }
  }

  /** Every byte is programmed only after it was erased. */
  lemma {:induction false} TidyErasedBefore(cmds: seq<Command>, lo: nat, off: nat, erased: nat, written: nat,
                                            j: nat, b: nat) returns (i: nat)
    requires Tidy(cmds, lo, off, erased, written) && lo <= off && j < |cmds|
    requires cmds[j].Programmed? && cmds[j].offset <= b < cmds[j].offset + cmds[j].size
    ensures i < j && cmds[i].Erased? && cmds[i].offset <= b < cmds[i].offset + cmds[i].size
    decreases |cmds|
  {
    var c, rest := cmds[|cmds| - 1], cmds[..|cmds| - 1];
    var e, w := if c.Erased? then c.offset else erased, if c.Erased? then written else c.offset;
    if j < |rest| {
      i := TidyErasedBefore(rest, lo, off, e, w, j, b);
    } else {
      if rest != [] {
        TidyBounds(rest, lo, off, e, w, 0);
      }
      i := ErasedSomewhere(rest, lo, off, e, w, b);
    }
  }

  lemma {:induction false} ErasedSomewhere(cmds: seq<Command>, lo: nat, off: nat, erased: nat, written: nat, b: nat)
    returns (i: nat)
    requires Tidy(cmds, lo, off, erased, written) && lo <= b < erased
    ensures i < |cmds| && cmds[i].Erased? && cmds[i].offset <= b < cmds[i].offset + cmds[i].size
    decreases |cmds|
  {
    var c, rest := cmds[|cmds| - 1], cmds[..|cmds| - 1];
    if c.Erased? && c.offset <= b {
      i := |rest|;
    } else {
      i := ErasedSomewhere(rest, lo, off, if c.Erased? then c.offset else erased,
                           if c.Erased? then written else c.offset, b);
    }
  }

  /** A command that ends beyond the capacity ends there before wrapping around, or started there. */
  lemma WrapInside(at: nat, n: nat, capacity: nat)
    ensures at <= capacity < TWO32 ==> Wrap(at) == at
  {
  }

  lemma ProgramMore(cells: seq<bv8>, offset: nat, data: seq<bv8>, n: nat, c: nat)
    requires n + c <= |data|
    ensures Program(Program(cells, offset, data[..n]), offset + n, data[n..][..c])
         == Program(cells, offset, data[..n + c])
  {
    ProgramSplit(cells, offset, data[..n], data[n..][..c]);
    assert data[..n] + data[n..][..c] == data[..n + c];
  }

  lemma StraysLater(log: seq<Command>, log': seq<Command>, log'': seq<Command>, capacity: nat)
    requires log <= log' <= log''
    ensures Strays(log'[|log|..], capacity) || Strays(log''[|log'|..], capacity) ==> Strays(log''[|log|..], capacity)
  {
    var all := log''[|log|..];
    if Strays(log'[|log|..], capacity) {
      var i :| 0 <= i < |log'[|log|..]| && log'[|log|..][i].offset + log'[|log|..][i].size > capacity;
      assert all[i] == log'[|log|..][i];
    } else if Strays(log''[|log'|..], capacity) {
      var i :| 0 <= i < |log''[|log'|..]| && log''[|log'|..][i].offset + log''[|log'|..][i].size > capacity;
      assert all[|log'| - |log| + i] == log''[|log'|..][i];
    }
  }

  /** One more command behind those issued since `logged`. */
  lemma LogMore(logged: seq<Command>, log: seq<Command>, c: Command, capacity: nat, from: nat)
    requires logged <= log
    ensures var old', new' := log[|logged|..], (log + [c])[|logged|..];
            && logged <= log + [c]
            && (Strays(new', capacity) <==> Strays(old', capacity) || c.offset + c.size > capacity)
            && (c.Erased? && c.size > 0 && Erases(old', from, c.offset) ==> Erases(new', from, c.offset + c.size))
            && (c.Programmed? && c.size > 0 && Writes(old', from, c.offset) ==> Writes(new', from, c.offset + c.size))
  {
    var old', new' := log[|logged|..], (log + [c])[|logged|..];
    assert new' == old' + [c] && new'[..|old'|] == old';
    StraysMore(old', c, capacity);
  }

  lemma NothingIssued(from: nat)
    ensures Erases([], from, from) && Writes([], from, from)
  {
  }

  /** Wrapping an offset around does not change the size of a piece or a chunk. */
  lemma PieceWraps(offset: nat, size: nat)
    ensures Piece(Wrap(offset), size) == Piece(offset, size)
  {
    WrapMod(offset, SIZE_64K, 0x1_0000);
    WrapMod(offset, SIZE_32K, 0x2_0000);
    WrapMod(offset, SIZE_4K, 0x10_0000);
    hide Wrap;
  }

  lemma ChunkWraps(offset: nat, size: nat)
    ensures Chunk(Wrap(offset), size) == Chunk(offset, size)
  {
    WrapMod(offset, PAGE_SIZE, 0x100_0000);
    PageRest(offset, size);
    PageRest(Wrap(offset), size);
    hide Wrap, Chunk, AlignDown, Sub32;
  }

  /** The rest of the page. */
  lemma PageRest(offset: nat, size: nat)
    ensures Chunk(offset, size) == Min(PAGE_SIZE - offset % PAGE_SIZE, size)
    ensures AlignDown(offset + PAGE_SIZE, PAGE_SIZE) == offset + (PAGE_SIZE - offset % PAGE_SIZE)
  {
  }

  /** The chunk as the code computes it in 32 bits, also when the next page starts at 2^32. */
  lemma ChunkByCode(offset: nat, size: nat)
    requires offset < TWO32
    ensures Wrap(AlignDown(offset + PAGE_SIZE, PAGE_SIZE)) < TWO32
    ensures Chunk(offset, size) == Min(Sub32(Wrap(AlignDown(offset + PAGE_SIZE, PAGE_SIZE)), offset), size)
  {
    PageRest(offset, size);
    var q := offset / PAGE_SIZE;
    assert offset + (PAGE_SIZE - offset % PAGE_SIZE) == (q + 1) * PAGE_SIZE <= 0x100_0000 * PAGE_SIZE == TWO32;
    hide AlignDown;
  }

  lemma ChunkInside(capacity: nat, offset: nat, size: nat)
    requires capacity % SIZE_64K == 0
    ensures offset < capacity ==> offset + Chunk(offset, size) <= capacity
  {
    PageRest(offset, size);
    hide Chunk;
    var q := capacity / SIZE_64K;
    assert capacity == (256 * q) * PAGE_SIZE;
    if offset < capacity {
      assert offset / PAGE_SIZE < 256 * q;
      assert (offset / PAGE_SIZE + 1) * PAGE_SIZE <= (256 * q) * PAGE_SIZE;
    }
  }

  // ----- the driver -----

  class Driver {
    const capacity: nat
    /** Device contents. */
    var cells: seq<bv8>
    /** Polls until the command in progress is finished. */
    var busy: nat
    /** The block_prohibit bitmap, bit by bit. */
    var prohibit: seq<bool>
    /** All commands so far. */
    ghost var log: seq<Command>

    ghost predicate Valid()
      reads this
    {
      |cells| == capacity && Shape(capacity, prohibit)
    }

    constructor (contents: seq<bv8>)
      requires |contents| <= MAX_CAPACITY && |contents| % SIZE_64K == 0
      ensures Valid() && cells == contents && busy == 0 && log == []
      ensures forall b :: 0 <= b < BLOCKS ==> !prohibit[b]
    {
      capacity := |contents|;
      cells := contents;
      busy := 0;
      prohibit := seq(BLOCKS, _ => false);
      log := [];
    }

    // --- the device ---

    /** What a command does that leaves the device is not known. */
    method HalUnknown()
      requires Valid()
      modifies this`cells
      ensures Valid()
    {
      var any: seq<bv8> := *;
      if |any| == capacity {
        cells := any;
      }
    }

    method HalErase(offset: nat, size: nat)
      requires Valid() && busy == 0
      requires size in {SIZE_4K, SIZE_32K, SIZE_64K} && offset % size == 0
      modifies this`cells, this`busy, this`log
      ensures Valid() && log == old(log) + [Erased(offset, size)]
      ensures offset + size <= capacity ==> cells == EraseRange(old(cells), offset, offset + size)
    {
      if offset + size <= capacity {
        cells := EraseRange(cells, offset, offset + size);
      } else {
        HalUnknown();
      }
      busy := *;
      log := log + [Erased(offset, size)];
    }

    method HalPageProgram(offset: nat, data: seq<bv8>)
      requires Valid() && busy == 0
      requires data == [] || (offset + |data| - 1) / PAGE_SIZE == offset / PAGE_SIZE
      modifies this`cells, this`busy, this`log
      ensures Valid() && log == old(log) + [Programmed(offset, |data|)]
      ensures offset + |data| <= capacity ==> cells == Program(old(cells), offset, data)
    {
      if offset + |data| <= capacity {
        cells := Program(cells, offset, data);
      } else {
        HalUnknown();
      }
      busy := *;
      log := log + [Programmed(offset, |data|)];
    }

    method WaitDone()
      requires Valid()
      modifies this`busy
      ensures busy == 0
    {
      while busy > 0
      {
        busy := busy - 1;
      }
    }

    method IsDone() returns (done: bool)
      requires Valid()
      modifies this`busy
      ensures done == (old(busy) == 0)
      ensures busy == if done then 0 else old(busy) - 1
    {
      done := busy == 0;
      if !done {
        busy := busy - 1;
      }
    }

    /** Reading through the memory map; only meaningful while no command is in progress. */
    method MapRead(offset: nat, size: nat) returns (data: seq<bv8>)
      requires Valid() && busy == 0 && offset + size <= capacity
      ensures data == cells[offset..offset + size]
    {
      data := cells[offset..offset + size];
    }

    // --- single commands ---

    /** A request that is refused; the sum is taken modulo 2^32. */
    ghost predicate Refused(offset: nat, size: nat)
      requires Shape(capacity, prohibit) && offset < MAX_CAPACITY
      reads this
    {
      Wrap(offset + size) > capacity || prohibit[offset / SIZE_64K]
    }

    /** The bitmap has no bit for offsets beyond 16M; what is read there is not known. */
    method IsWriteProhibit(address: nat) returns (yes: bool)
      requires Valid()
      ensures address < MAX_CAPACITY ==> yes == prohibit[address / SIZE_64K]
    {
      var block := address / SIZE_64K;
      if block < BLOCKS {
        yes := prohibit[block];
      } else {
        yes := *;
      }
    }

    method EraseNoWait(offset: nat, size: nat) returns (r: int)
      requires Valid() && offset < TWO32 && size < TWO32
      modifies this`cells, this`busy, this`log
      ensures Valid()
      ensures r == -1 || r == Piece(offset, size)
      ensures Wrap(offset + size) > capacity ==> r == -1
      ensures offset < MAX_CAPACITY ==> r == if Refused(offset, size) then -1 else Piece(offset, size)
      ensures r < 0 ==> cells == old(cells) && log == old(log) && (old(busy) == 0 ==> busy == 0)
      ensures r >= 0 ==> log == old(log) + [Erased(offset, r)]
      ensures r >= 0 && offset + r <= capacity ==> cells == EraseRange(old(cells), offset, offset + r)
      ensures r >= 0 && offset < capacity ==> offset + r <= capacity
    {
      if Wrap(offset + size) > capacity {
        return -1;
      }
      var blocked := IsWriteProhibit(offset);
      if blocked {
        return -1;
      }
      WaitDone();
      hide EraseRange;
      PieceInside(capacity, offset, size);
      if offset % SIZE_64K == 0 && size >= SIZE_64K {
        HalErase(offset, SIZE_64K);
        return SIZE_64K;
      } else if offset % SIZE_32K == 0 && size >= SIZE_32K {
        HalErase(offset, SIZE_32K);
        return SIZE_32K;
      } else if offset % SIZE_4K == 0 && size >= SIZE_4K {
        HalErase(offset, SIZE_4K);
        return SIZE_4K;
      } else {
        return -1;
      }
    }

    /** The size that one program command covers. */
    method PageChunk(offset: nat, size: nat) returns (bsize: nat)
      requires offset < TWO32
      ensures bsize == Chunk(offset, size)
    {
      ChunkByCode(offset, size);
      hide Chunk, AlignDown, Wrap, Sub32;
      var nextPage := Wrap(AlignDown(offset + PAGE_SIZE, PAGE_SIZE));
      bsize := Sub32(nextPage, offset);
      if bsize > size {
        bsize := size;
      }
    }

    /** Only the bytes up to the end of the page are read from data. */
    method WriteNoWait(offset: nat, data: seq<bv8>, size: nat) returns (r: int)
      requires Valid() && offset < TWO32 && size < TWO32
      requires |data| >= Chunk(offset, size)
      modifies this`cells, this`busy, this`log
      ensures Valid()
      ensures r == -1 || r == Chunk(offset, size)
      ensures Wrap(offset + size) > capacity ==> r == -1
      ensures offset < MAX_CAPACITY ==> r == if Refused(offset, size) then -1 else Chunk(offset, size)
      ensures r < 0 ==> cells == old(cells) && log == old(log) && (old(busy) == 0 ==> busy == 0)
      ensures r >= 0 ==> log == old(log) + [Programmed(offset, r)]
      ensures r >= 0 && offset + r <= capacity ==> cells == Program(old(cells), offset, data[..r])
      ensures r >= 0 && offset < capacity ==> offset + r <= capacity
    {
      if Wrap(offset + size) > capacity {
        return -1;
      }
      var blocked := IsWriteProhibit(offset);
      if blocked {
        return -1;
      }
      ChunkInside(capacity, offset, size);
      hide Program, Chunk, Wrap;
      var bsize := PageChunk(offset, size);
      WaitDone();
      HalPageProgram(offset, data[..bsize]);
      return bsize;
    }

    // --- looping operations ---

    /** An erase from offset has got to `at`; was and logged tell how things were before it. */
    ghost predicate ErasedTo(was: seq<bv8>, logged: seq<Command>, offset: nat, size: nat, at: nat)
      reads this
    {
      && Valid() && logged <= log && offset <= at <= offset + size
      && (at == offset || at <= capacity || Strays(log[|logged|..], capacity))
      && (offset + size < TWO32 ==>
            && cells == EraseRange(was, offset, at) && Erases(log[|logged|..], offset, at)
            && at + EraseReach(capacity, prohibit, at, offset + size - at)
               == offset + EraseReach(capacity, prohibit, offset, size))
    }

    /** One pass of the erase loop. */
    method EraseStep(o: nat, s: nat, ghost at: nat, ghost was: seq<bv8>, ghost logged: seq<Command>,
                     ghost offset: nat, ghost size: nat)
      returns (esize: int)
      requires ErasedTo(was, logged, offset, size, at) && at + s == offset + size && o == Wrap(at)
      requires 0 < s < TWO32 && offset < TWO32
      modifies this`cells, this`busy, this`log
      ensures Valid() && logged <= log && (old(busy) == 0 ==> busy == 0)
      ensures esize >= 0 ==>
                esize == Piece(at, s) && esize <= s && busy == 0 && ErasedTo(was, logged, offset, size, at + esize)
      ensures esize < 0 && offset + size < TWO32 ==>
                EraseReach(capacity, prohibit, at, s) == 0 && ErasedTo(was, logged, offset, size, at)
    {
      hide EraseRange, EraseReach, Piece, Erases, Strays, Wrap;
      ghost var log' := log;
      WrapSmall(at);
      WrapSmall(at + s);
      EraseReachStep(capacity, prohibit, at, s);
      PieceWraps(at, s);
      esize := EraseNoWait(o, s);
      if esize >= 0 {
        EraseSplit(was, offset, at, at + esize);
        LogMore(logged, log', Erased(o, esize), capacity, offset);
        WrapInside(at, esize, capacity);
        WaitDone();
      }
    }

    /**
      The ghost result lists the sizes of the erase commands that were issued, in order.  A
      request whose end wraps around succeeds only by leaving the device.
    */
    method Erase(offset: nat, size: nat) returns (ok: bool, ghost issued: seq<nat>)
      requires Valid() && offset < TWO32 && size < TWO32
      modifies this`cells, this`busy, this`log
      ensures Valid() && old(log) <= log
      ensures ok ==> issued == Greedy(offset, size)
      ensures offset + size < TWO32 ==>
                var reach := EraseReach(capacity, prohibit, offset, size);
                && (ok <==> reach == size)
                && cells == EraseRange(old(cells), offset, offset + reach)
                && Erases(log[|old(log)|..], offset, offset + reach)
      ensures ok && offset + size >= TWO32 ==> Strays(log[|old(log)|..], capacity)
      ensures old(busy) == 0 || (ok && size > 0) ==> busy == 0
    {
      hide EraseRange, EraseReach, Piece, Greedy, Erases, Strays, Wrap;
      ghost var was, logged := cells, log;
      NothingDone(was, offset);
      NothingIssued(offset);
      WrapSmall(offset);
      assert logged[|logged|..] == [];
      issued := [];
      var o: nat, s: nat := offset, size;
      ghost var at: nat := offset;
      while s > 0
        invariant ErasedTo(was, logged, offset, size, at) && at + s == offset + size && o == Wrap(at)
        invariant issued + Greedy(at, s) == Greedy(offset, size)
        invariant old(busy) == 0 || at != offset ==> busy == 0
      {
        GreedyNext(at, s);
        var esize := EraseStep(o, s, at, was, logged, offset, size);
        if esize < 0 {
          return false, issued;
        }
        issued := issued + [esize as nat];
        WrapAdd(at, esize);
        s := s - esize;
        o := Wrap(o + esize);
        at := at + esize;
      }
      GreedyEnd(at);
      NothingReached(capacity, prohibit, at);
      return true, issued;
    }

    /** A write to offset has programmed the first n bytes. */
    ghost predicate WroteTo(was: seq<bv8>, logged: seq<Command>, offset: nat, data: seq<bv8>, n: nat)
      reads this
    {
      && Valid() && logged <= log && n <= |data|
      && (n == 0 || offset + n <= capacity || Strays(log[|logged|..], capacity))
      && (offset + |data| < TWO32 ==>
            && cells == Program(was, offset, data[..n]) && Writes(log[|logged|..], offset, offset + n)
            && n + WriteReach(capacity, prohibit, offset + n, |data| - n)
               == WriteReach(capacity, prohibit, offset, |data|))
    }

    /** One pass of the write loop. */
    method WriteStep(o: nat, data: seq<bv8>, n: nat, ghost was: seq<bv8>, ghost logged: seq<Command>, ghost offset: nat)
      returns (wsize: int)
      requires WroteTo(was, logged, offset, data, n) && o == Wrap(offset + n) && n < |data| < TWO32 && offset < TWO32
      modifies this`cells, this`busy, this`log
      ensures Valid() && logged <= log && (old(busy) == 0 ==> busy == 0)
      ensures wsize >= 0 ==> 0 < wsize <= |data| - n && busy == 0 && WroteTo(was, logged, offset, data, n + wsize)
      ensures wsize < 0 && offset + |data| < TWO32 ==>
                WriteReach(capacity, prohibit, offset + n, |data| - n) == 0 && WroteTo(was, logged, offset, data, n)
    {
      hide Program, WriteReach, Chunk, Writes, Strays, Wrap;
      ghost var log' := log;
      WrapSmall(offset + n);
      WrapSmall(offset + |data|);
      WriteReachStep(capacity, prohibit, offset + n, |data| - n);
      ChunkWraps(offset + n, |data| - n);
      wsize := WriteNoWait(o, data[n..], |data| - n);
      if wsize >= 0 {
        ProgramMore(was, offset, data, n, wsize);
        LogMore(logged, log', Programmed(o, wsize), capacity, offset);
        WrapInside(offset + n, wsize, capacity);
        WaitDone();
      }
    }

    method Write(offset: nat, data: seq<bv8>) returns (ok: bool)
      requires Valid() && offset < TWO32 && |data| < TWO32
      modifies this`cells, this`busy, this`log
      ensures Valid() && old(log) <= log
      ensures offset + |data| < TWO32 ==>
                var reach := WriteReach(capacity, prohibit, offset, |data|);
                && (ok <==> reach == |data|)
                && cells == Program(old(cells), offset, data[..reach])
                && Writes(log[|old(log)|..], offset, offset + reach)
      ensures ok && offset + |data| >= TWO32 ==> Strays(log[|old(log)|..], capacity)
      ensures old(busy) == 0 || (ok && data != []) ==> busy == 0
    {
      hide Program, WriteReach, Chunk, Writes, Strays, Wrap;
      ghost var was, logged := cells, log;
      NothingDone(was, offset);
      NothingIssued(offset);
      WrapSmall(offset);
      assert logged[|logged|..] == [] && data[..0] == [];
      var n: nat := 0;
      var o := offset;
      while n < |data|
        invariant WroteTo(was, logged, offset, data, n) && o == Wrap(offset + n)
        invariant old(busy) == 0 || n > 0 ==> busy == 0
      {
        var wsize := WriteStep(o, data, n, was, logged, offset);
        if wsize < 0 {
          return false;
        }
        WrapAdd(offset + n, wsize);
        n := n + wsize;
        o := Wrap(o + wsize);
      }
      NothingReached(capacity, prohibit, offset + n);
      return true;
    }

    /** Erasing everything; the bitmap is not looked up. */
    method ChipErase()
      requires Valid()
      modifies this`cells, this`busy, this`log
      ensures Valid() && cells == EraseRange(old(cells), 0, capacity) && busy == 0
    {
      WaitDone();
      cells := EraseRange(cells, 0, capacity);
      busy := *;
      log := log + [Erased(0, capacity)];
      WaitDone();
    }

    // --- write prohibition ---

    method SetRangeWriteProhibit(start: nat, end: nat)
      requires Valid()
      modifies this`prohibit
      ensures Valid() && prohibit == Marked(capacity, old(prohibit), start, end, true)
      ensures forall b :: 0 <= b < BLOCKS ==>
                prohibit[b] == if start <= capacity && end <= capacity
                                  && start <= b * 0x1_0000 && (b + 1) * 0x1_0000 <= end
                               then true else old(prohibit)[b]
    {
      if start > capacity || end > capacity {
        return;
      }
      var block, blockEnd := AlignUp(start, SIZE_64K) / SIZE_64K, AlignDown(end, SIZE_64K) / SIZE_64K;
      ghost var first := block;
      WholeBlocks(start, end);
      assert blockEnd <= BLOCKS;
      while block < blockEnd
        invariant first <= block && (block == first || block <= blockEnd) && |prohibit| == BLOCKS
        invariant forall b :: 0 <= b < BLOCKS ==>
                    prohibit[b] == (if first <= b < block then true else old(prohibit)[b])
      {
        prohibit := prohibit[block := true];
        block := block + 1;
      }
    }

    method ClearRangeWriteProhibit(start: nat, end: nat)
      requires Valid()
      modifies this`prohibit
      ensures Valid() && prohibit == Marked(capacity, old(prohibit), start, end, false)
      ensures forall b :: 0 <= b < BLOCKS ==>
                prohibit[b] == if start <= capacity && end <= capacity
                                  && start <= b * 0x1_0000 && (b + 1) * 0x1_0000 <= end
                               then false else old(prohibit)[b]
    {
      if start > capacity || end > capacity {
        return;
      }
      var block, blockEnd := AlignUp(start, SIZE_64K) / SIZE_64K, AlignDown(end, SIZE_64K) / SIZE_64K;
      ghost var first := block;
      WholeBlocks(start, end);
      assert blockEnd <= BLOCKS;
      while block < blockEnd
        invariant first <= block && (block == first || block <= blockEnd) && |prohibit| == BLOCKS
        invariant forall b :: 0 <= b < BLOCKS ==>
                    prohibit[b] == (if first <= b < block then false else old(prohibit)[b])
      {
        prohibit := prohibit[block := false];
        block := block + 1;
      }
    }
  }

  /** The bitmap after the blocks that lie wholly inside [start, end) were set or cleared. */
  function Marked(capacity: nat, prohibit: seq<bool>, start: nat, end: nat, value: bool): (r: seq<bool>)
    ensures |r| == |prohibit|
  {
    if start > capacity || end > capacity then prohibit
    else seq(|prohibit|, b requires 0 <= b < |prohibit| =>
           if WhollyInside(b, start, end) then value else prohibit[b])
  }

  /** The 64K block b lies wholly inside [start, end). */
  predicate WhollyInside(b: nat, start: nat, end: nat) {
    start <= b * SIZE_64K && (b + 1) * SIZE_64K <= end
  }

  lemma WholeBlocks(start: nat, end: nat)
    ensures forall b: nat :: WhollyInside(b, start, end)
              <==> AlignUp(start, SIZE_64K) / SIZE_64K <= b < AlignDown(end, SIZE_64K) / SIZE_64K
  {
    var lo, hi := (start + SIZE_64K - 1) / SIZE_64K, end / SIZE_64K;
    assert AlignUp(start, SIZE_64K) == lo * SIZE_64K;
    assert AlignDown(end, SIZE_64K) == hi * SIZE_64K;
    forall b: nat
      ensures WhollyInside(b, start, end) <==> lo <= b < hi
    {
    }
  }

  // ----- protection over whole runs -----

  datatype Operation =
    | EraseOne(offset: nat, size: nat)
    | WriteOne(offset: nat, data: seq<bv8>)
    | EraseAll(offset: nat, size: nat)
    | WriteAll(offset: nat, data: seq<bv8>)
    | Set(start: nat, end: nat)
    | Clear(start: nat, end: nat)
    | EraseChip

  datatype State = State(capacity: nat, cells: seq<bv8>, prohibit: seq<bool>)
  {
    ghost predicate Valid() { |cells| == capacity && Shape(capacity, prohibit) }

    /** What the driver method for op leaves behind, for requests that stay on the device. */
    ghost function Next(op: Operation): (s: State)
      requires Valid()
      ensures s.Valid() && s.capacity == capacity
    {
      match op
      case EraseOne(o, n) =>
        if o >= capacity || Wrap(o + n) > capacity || prohibit[o / SIZE_64K] || Piece(o, n) < 0 then this
        else this.(cells := EraseRange(cells, o, o + Piece(o, n)))
      case WriteOne(o, d) =>
        if o >= capacity || Wrap(o + |d|) > capacity || prohibit[o / SIZE_64K] then this
        else this.(cells := Program(cells, o, d[..Chunk(o, |d|)]))
      case EraseAll(o, n) => this.(cells := EraseRange(cells, o, o + EraseReach(capacity, prohibit, o, n)))
      case WriteAll(o, d) => this.(cells := Program(cells, o, d[..WriteReach(capacity, prohibit, o, |d|)]))
      case Set(a, b) => this.(prohibit := Marked(capacity, prohibit, a, b, true))
      case Clear(a, b) => this.(prohibit := Marked(capacity, prohibit, a, b, false))
      case EraseChip => this.(cells := EraseRange(cells, 0, capacity))
    }

    ghost function Run(ops: seq<Operation>): (s: State)
      requires Valid()
      ensures s.Valid() && s.capacity == capacity
      decreases |ops|
    {
      if ops == [] then this else Next(ops[0]).Run(ops[1..])
    }
  }

  /**
    Requests that stay on the device, or are refused: all single commands that start on the
    device, whether or not their end wraps around, and all others whose end does not.
  */
  predicate Plain(op: Operation, capacity: nat) {
    match op
    case EraseOne(o, n) => o < TWO32 && n < TWO32 && (o < capacity || (0 < n && o + n < TWO32))
    case WriteOne(o, d) => o < TWO32 && |d| < TWO32 && (o < capacity || (d != [] && o + |d| < TWO32))
    case EraseAll(o, n) => o + n < TWO32
    case WriteAll(o, d) => o + |d| < TWO32
    case _ => true
  }

  /** The driver does what the states say. */
  method Execute(d: Driver, op: Operation)
    requires d.Valid() && Plain(op, d.capacity)
    modifies d
    ensures d.Valid()
    ensures State(d.capacity, d.cells, d.prohibit) == State(d.capacity, old(d.cells), old(d.prohibit)).Next(op)
  {
    hide EraseRange, Program, EraseReach, WriteReach, Piece, Chunk, Marked;
    match op
    case EraseOne(o, n) => var r := d.EraseNoWait(o, n);
    case WriteOne(o, data) =>
      ChunkInside(d.capacity, o, |data|);
      var r := d.WriteNoWait(o, data, |data|);
    case EraseAll(o, n) => var ok, issued := d.Erase(o, n);
    case WriteAll(o, data) => var ok := d.Write(o, data);
    case Set(a, b) => d.SetRangeWriteProhibit(a, b);
    case Clear(a, b) => d.ClearRangeWriteProhibit(a, b);
    case EraseChip => d.ChipErase();
  }

  lemma NothingPermitted(prohibit: seq<bool>, offset: nat)
    ensures Permitted(prohibit, offset, offset)
  {
  }

  /** Everything that was reached lies in permitted blocks. */
  lemma {:induction false} EraseReachPermitted(capacity: nat, prohibit: seq<bool>, offset: nat, size: nat)
    requires Shape(capacity, prohibit)
    ensures Permitted(prohibit, offset, offset + EraseReach(capacity, prohibit, offset, size))
    decreases size
  {
    hide Piece, EraseReach, Permitted;
    NothingReached(capacity, prohibit, offset);
    NothingPermitted(prohibit, offset);
    if size > 0 {
      EraseReachStep(capacity, prohibit, offset, size);
    }
    if !(size == 0 || offset + size > capacity || prohibit[offset / SIZE_64K]) && Piece(offset, size) >= 0 {
      var p := Piece(offset, size);
      PieceInOneBlock(offset, size);
      EraseReachPermitted(capacity, prohibit, offset + p, size - p);
      PermittedStep(prohibit, offset, offset + p, offset + EraseReach(capacity, prohibit, offset, size));
    }
  }

  lemma {:induction false} WriteReachPermitted(capacity: nat, prohibit: seq<bool>, offset: nat, size: nat)
    requires Shape(capacity, prohibit)
    ensures Permitted(prohibit, offset, offset + WriteReach(capacity, prohibit, offset, size))
    decreases size
  {
    hide Chunk, WriteReach, Permitted;
    NothingReached(capacity, prohibit, offset);
    NothingPermitted(prohibit, offset);
    if size > 0 {
      WriteReachStep(capacity, prohibit, offset, size);
    }
    if !(size == 0 || offset + size > capacity || prohibit[offset / SIZE_64K]) {
      var c := Chunk(offset, size);
      PageInBlock(offset, c);
      WriteReachPermitted(capacity, prohibit, offset + c, size - c);
      PermittedStep(prohibit, offset, offset + c, offset + WriteReach(capacity, prohibit, offset, size));
    }
  }

  ghost predicate SameBlock(s: State, t: State, block: nat)
    requires s.Valid() && t.Valid() && s.capacity == t.capacity
  {
    forall i :: 0 <= i < s.capacity && i / SIZE_64K == block ==> t.cells[i] == s.cells[i]
  }

  /** What is erased or programmed in permitted blocks leaves a prohibited block alone. */
  lemma PermittedElsewhere(prohibit: seq<bool>, lo: nat, hi: nat, block: nat, i: nat)
    requires Permitted(prohibit, lo, hi) && block < |prohibit| && prohibit[block] && i / SIZE_64K == block
    ensures !(lo <= i < hi)
  {
  }

  lemma ErasedElsewhere(s: State, lo: nat, hi: nat, block: nat)
    requires s.Valid() && block < BLOCKS && s.prohibit[block] && Permitted(s.prohibit, lo, hi)
    ensures SameBlock(s, s.(cells := EraseRange(s.cells, lo, hi)), block)
  {
    forall i | 0 <= i < s.capacity && i / SIZE_64K == block
      ensures EraseRange(s.cells, lo, hi)[i] == s.cells[i]
    {
      PermittedElsewhere(s.prohibit, lo, hi, block, i);
    }
  }

  lemma ProgrammedElsewhere(s: State, off: nat, data: seq<bv8>, block: nat)
    requires s.Valid() && block < BLOCKS && s.prohibit[block] && Permitted(s.prohibit, off, off + |data|)
    ensures SameBlock(s, s.(cells := Program(s.cells, off, data)), block)
  {
    forall i | 0 <= i < s.capacity && i / SIZE_64K == block
      ensures Program(s.cells, off, data)[i] == s.cells[i]
    {
      PermittedElsewhere(s.prohibit, off, off + |data|, block, i);
    }
  }

  /** A command that is granted for its first byte lies in permitted blocks. */
  lemma GrantedIsPermitted(prohibit: seq<bool>, lo: nat, hi: nat)
    requires lo / SIZE_64K < |prohibit| && !prohibit[lo / SIZE_64K]
    requires lo < hi ==> (hi - 1) / SIZE_64K == lo / SIZE_64K
    ensures Permitted(prohibit, lo, hi)
  {
    if lo < hi {
      PermittedStep(prohibit, lo, hi, hi);
    }
  }

  lemma CommandProtects(s: State, op: Operation, block: nat)
    requires s.Valid() && block < BLOCKS && s.prohibit[block] && (op.EraseOne? || op.WriteOne?)
    ensures SameBlock(s, s.Next(op), block)
  {
    hide EraseRange, Program, Piece, Chunk, Permitted, Wrap;
    match op
    case EraseOne(o, n) =>
      if o < s.capacity && !s.prohibit[o / SIZE_64K] && Piece(o, n) >= 0 {
        PieceInOneBlock(o, n);
        GrantedIsPermitted(s.prohibit, o, o + Piece(o, n));
        ErasedElsewhere(s, o, o + Piece(o, n), block);
      }
    case WriteOne(o, d) =>
      if o < s.capacity && !s.prohibit[o / SIZE_64K] {
        var c := Chunk(o, |d|);
        if c > 0 {
          PageInBlock(o, c);
        }
        GrantedIsPermitted(s.prohibit, o, o + c);
        ProgrammedElsewhere(s, o, d[..c], block);
      }
  }

  lemma LoopProtects(s: State, op: Operation, block: nat)
    requires s.Valid() && block < BLOCKS && s.prohibit[block] && (op.EraseAll? || op.WriteAll?)
    ensures SameBlock(s, s.Next(op), block)
  {
    hide EraseRange, Program, EraseReach, WriteReach, Permitted;
    match op
    case EraseAll(o, n) =>
      EraseReachPermitted(s.capacity, s.prohibit, o, n);
      ErasedElsewhere(s, o, o + EraseReach(s.capacity, s.prohibit, o, n), block);
    case WriteAll(o, d) =>
      WriteReachPermitted(s.capacity, s.prohibit, o, |d|);
      ProgrammedElsewhere(s, o, d[..WriteReach(s.capacity, s.prohibit, o, |d|)], block);
  }

  lemma OneOperationProtects(s: State, op: Operation, block: nat)
    requires s.Valid() && block < BLOCKS && s.prohibit[block] && !op.EraseChip?
    ensures SameBlock(s, s.Next(op), block)
    ensures op.Clear? || s.Next(op).prohibit[block]
    ensures op.Clear? && !s.Next(op).prohibit[block] ==>
              WhollyInside(block, op.start, op.end)
  {
    hide EraseRange, Program, EraseReach, WriteReach, Piece, Chunk, Wrap;
    match op
    case EraseOne(_, _) => CommandProtects(s, op, block);
    case WriteOne(_, _) => CommandProtects(s, op, block);
    case EraseAll(_, _) => LoopProtects(s, op, block);
    case WriteAll(_, _) => LoopProtects(s, op, block);
    case Set(_, _) =>
    case Clear(_, _) =>
  }

  /**
    While no Clear covers a prohibited block, and the whole chip is not erased, no run of
    operations changes any byte of it.
  */
  lemma {:induction false} RunProtects(s: State, ops: seq<Operation>, block: nat)
    requires s.Valid() && block < BLOCKS && s.prohibit[block]
    requires forall op :: op in ops ==>
               !op.EraseChip? && (op.Clear? ==> !WhollyInside(block, op.start, op.end))
    ensures s.Run(ops).prohibit[block] && SameBlock(s, s.Run(ops), block)
    decreases |ops|
  {
    if ops != [] {
      OneOperationProtects(s, ops[0], block);
      RunProtects(s.Next(ops[0]), ops[1..], block);
    }
  }

  /**
    Setting a range protects every byte of the blocks wholly inside it, over all operations that
    follow, until one of these blocks is cleared or the whole chip is erased.
  */
  lemma SetProtects(s: State, start: nat, end: nat, ops: seq<Operation>, b: nat, i: nat)
    requires s.Valid() && start <= s.capacity && end <= s.capacity
    requires start <= b * 0x1_0000 && (b + 1) * 0x1_0000 <= end
    requires forall op :: op in ops ==>
               !op.EraseChip? && (op.Clear? ==> !(op.start <= b * 0x1_0000 && (b + 1) * 0x1_0000 <= op.end))
    requires b * 0x1_0000 <= i < (b + 1) * 0x1_0000
    ensures i < s.capacity && s.Next(Set(start, end)).Run(ops).cells[i] == s.cells[i]
  {
    var t := s.Next(Set(start, end));
    InBlock(b, i);
    assert b < BLOCKS && t.prohibit[b];
    RunProtects(t, ops, b);
  }

  lemma InBlock(b: nat, i: nat)
    requires b * SIZE_64K <= i < (b + 1) * SIZE_64K
    ensures i / SIZE_64K == b
  {
    Quotient(b, SIZE_64K, i - b * SIZE_64K);
  }

  // ----- the greedy choice of erase sizes is the best one -----

  /** A way to erase exactly [offset, offset + size) with aligned 64K, 32K and 4K commands. */
  ghost predicate ErasePlan(plan: seq<nat>, offset: nat, size: nat)
    decreases |plan|
  {
    if plan == [] then size == 0
    else
      && plan[0] in {SIZE_4K, SIZE_32K, SIZE_64K}
      && plan[0] <= size && offset % plan[0] == 0
      && ErasePlan(plan[1..], offset + plan[0], size - plan[0])
  }

  /** The commands that the erase loop issues. */
  ghost function Greedy(offset: nat, size: nat): seq<nat>
    decreases size
  {
    var p := Piece(offset, size);
    if p < 0 then [] else [p as nat] + Greedy(offset + p, size - p)
  }

  lemma GreedyNext(offset: nat, size: nat)
    ensures Piece(offset, size) >= 0 ==>
              var p := Piece(offset, size);
              p <= size && Greedy(offset, size) == [p as nat] + Greedy(offset + p, size - p)
  {
  }

  lemma GreedyEnd(offset: nat)
    ensures Greedy(offset, 0) == []
  {
  }

  lemma GreedyStep(offset: nat, size: nat)
    requires offset % SIZE_4K == 0 && size % SIZE_4K == 0
    ensures Piece(offset, size) < 0 ==> size == 0
    ensures Piece(offset, size) >= 0 ==>
              var p := Piece(offset, size);
              && p in {SIZE_4K, SIZE_32K, SIZE_64K} && p <= size && offset % p == 0
              && (offset + p) % SIZE_4K == 0 && (size - p) % SIZE_4K == 0
  {
    if Piece(offset, size) >= 0 {
      PieceInOneBlock(offset, size);
      var p := Piece(offset, size);
      Quotient(size / SIZE_4K - p / SIZE_4K, SIZE_4K, 0);
    }
  }

  lemma PlanFrom(plan: seq<nat>, offset: nat, size: nat)
    requires plan != [] && plan[0] in {SIZE_4K, SIZE_32K, SIZE_64K}
    requires plan[0] <= size && offset % plan[0] == 0 && ErasePlan(plan[1..], offset + plan[0], size - plan[0])
    ensures ErasePlan(plan, offset, size)
  {
  }

  lemma {:induction false} GreedyIsPlan(offset: nat, size: nat)
    requires offset % SIZE_4K == 0 && size % SIZE_4K == 0
    ensures ErasePlan(Greedy(offset, size), offset, size)
    decreases size
  {
    GreedyStep(offset, size);
    hide Piece, ErasePlan;
    if Piece(offset, size) >= 0 {
      var p := Piece(offset, size);
      GreedyIsPlan(offset + p, size - p);
      assert Greedy(offset, size)[1..] == Greedy(offset + p, size - p);
      PlanFrom(Greedy(offset, size), offset, size);
    } else {
      NoPlan(offset);
    }
  }

  lemma NoPlan(offset: nat)
    ensures ErasePlan([], offset, 0)
  {
  }

  /** The commands that start inside an aligned piece do not leave it. */
  lemma PiecesNest(offset: nat, size: nat, skip: nat)
    requires size % SIZE_4K == 0 && skip % SIZE_4K == 0 && skip < Piece(offset, size)
    ensures 0 < Piece(offset + skip, size - skip) <= Piece(offset, size) - skip
  {
    if skip > 0 {
      if offset % SIZE_64K == 0 && size >= SIZE_64K {
        NestIn64K(offset / SIZE_64K, skip / SIZE_4K);
      } else {
        NestIn32K(offset / SIZE_32K, skip / SIZE_4K);
      }
    }
  }

  lemma NestIn64K(q: nat, k: nat)
    requires 0 < k < 16
    ensures var o := q * SIZE_64K + k * SIZE_4K;
            && o % SIZE_64K != 0 && o % SIZE_4K == 0 && (o % SIZE_32K == 0 ==> k == 8)
  {
    Quotient(2 * q + k / 8, SIZE_32K, SIZE_4K * (k % 8));
    Quotient(q, SIZE_64K, SIZE_4K * k);
    Quotient(16 * q + k, SIZE_4K, 0);
  }

  lemma NestIn32K(q: nat, k: nat)
    requires 0 < k < 8
    ensures var o := q * SIZE_32K + k * SIZE_4K;
            o % SIZE_64K != 0 && o % SIZE_32K != 0 && o % SIZE_4K == 0
  {
    Quotient(q, SIZE_32K, SIZE_4K * k);
    Quotient(q / 2, SIZE_64K, SIZE_32K * (q % 2) + SIZE_4K * k);
    Quotient(8 * q + k, SIZE_4K, 0);
  }

  /** Starting a command later inside an aligned piece does not save commands. */
  lemma {:induction false} GreedyNotBetterLater(offset: nat, size: nat, skip: nat)
    requires size % SIZE_4K == 0 && skip % SIZE_4K == 0 && skip < Piece(offset, size)
    ensures |Greedy(offset + Piece(offset, size), size - Piece(offset, size))|
            < |Greedy(offset + skip, size - skip)|
    decreases size - skip
  {
    hide Piece, Greedy;
    PiecesNest(offset, size, skip);
    PieceInOneBlock(offset + skip, size - skip);
    GreedyNext(offset + skip, size - skip);
    var q := Piece(offset + skip, size - skip);
    if skip + q < Piece(offset, size) {
      GreedyNotBetterLater(offset, size, skip + q);
    }
  }

  lemma PlanStart(plan: seq<nat>, offset: nat, size: nat)
    requires plan != [] && ErasePlan(plan, offset, size)
    ensures 0 < plan[0] <= Piece(offset, size) && plan[0] % SIZE_4K == 0
    ensures ErasePlan(plan[1..], offset + plan[0], size - plan[0])
    ensures offset % SIZE_4K == 0 && size % SIZE_4K == 0 ==>
              (offset + plan[0]) % SIZE_4K == 0 && (size - plan[0]) % SIZE_4K == 0
  {
    if plan[0] == SIZE_64K {
    } else if plan[0] == SIZE_32K {
    } else {
    }
  }

  /** No plan erases the range with fewer commands than the driver. */
  lemma {:induction false} GreedyIsShortest(plan: seq<nat>, offset: nat, size: nat)
    requires offset % SIZE_4K == 0 && size % SIZE_4K == 0
    requires ErasePlan(plan, offset, size)
    ensures |Greedy(offset, size)| <= |plan|
    decreases |plan|
  {
    if plan != [] {
      hide Piece, ErasePlan;
      PlanStart(plan, offset, size);
      var p := plan[0];
      GreedyIsShortest(plan[1..], offset + p, size - p);
      if p < Piece(offset, size) {
        GreedyNotBetterLater(offset, size, p);
      }
    }
  }
}
