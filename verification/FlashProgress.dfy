/**
  The address bookkeeping of a progressive flash download in boot_fdl_dnld.c: how far erasing
  gets, and what every move of the state machine keeps.
*/
module FlashProgress {

  import opened SpiFlash
  import opened FlashImage
  import opened Words

  datatype FlashStage = FlashNone | FlashErase | FlashWrite | FlashWaitData | FlashFinish

  // ----- which targets START accepts -----

  /** The end of the target, as the code computes it in 32 bits. */
  function CodeEnd(t: Target): nat {
    FlashOffset(Wrap(AlignUp(Wrap(t.start + t.total), SECTOR_SIZE)))
  }

  /** START looks at the end of the cover within the window, and at the first block only. */
  ghost predicate Startable(t: Target, capacity: nat, prohibit: seq<bool>)
    requires t.Flash() && Shape(capacity, prohibit)
  {
    Geometry(t);
    t.End() % WINDOW <= capacity && t.End() % WINDOW != t.Lo() && !prohibit[t.Lo() / SIZE_64K]
  }

  lemma CodeEndIs(t: Target)
    requires t.Flash()
    ensures CodeEnd(t) == t.End() % WINDOW
  {
    Geometry(t);
    LowBits(t.start + t.total, t.Base() + t.End());
    hide Target.Base, Target.End;
    var q := t.Base() / WINDOW;
    assert t.Base() + t.End() == q * WINDOW + t.End();
    AddMultiple(q, WINDOW, t.End());
  }

  /** Wrapping around at 32 bits changes none of the low 24 bits of an aligned end. */
  lemma LowBits(end: nat, aligned: nat)
    requires aligned == AlignUp(end, SECTOR_SIZE)
    ensures FlashOffset(Wrap(AlignUp(Wrap(end), SECTOR_SIZE))) == aligned % WINDOW
  {
    var q, r := end / TWO32, Wrap(end);
    assert end == (q * 0x10_0000) * SECTOR_SIZE + r;
    AlignUpShift(q * 0x10_0000, r);
    hide AlignUp, Wrap;
    assert aligned == (q * 0x100) * WINDOW + AlignUp(r, SECTOR_SIZE);
    AddMultiple(q * 0x100, WINDOW, AlignUp(r, SECTOR_SIZE));
    WrapMod(AlignUp(r, SECTOR_SIZE), WINDOW, 0x100);
  }

  lemma AlignUpShift(q: nat, n: nat)
    ensures AlignUp(q * SECTOR_SIZE + n, SECTOR_SIZE) == q * SECTOR_SIZE + AlignUp(n, SECTOR_SIZE)
  {
    var m := n + SECTOR_SIZE - 1;
    var p := m / SECTOR_SIZE;
    assert q * SECTOR_SIZE + m == (q + p) * SECTOR_SIZE + m % SECTOR_SIZE;
    Quotient(q + p, SECTOR_SIZE, m % SECTOR_SIZE);
  }

  /** START is acknowledged exactly if the first erase command is accepted. */
  lemma StartRequest(t: Target, capacity: nat, prohibit: seq<bool>)
    requires t.Flash() && Shape(capacity, prohibit)
    ensures t.Lo() < WINDOW && CodeEnd(t) < WINDOW
    ensures FlashOffset(AlignDown(t.start, SECTOR_SIZE)) == t.Lo()
    ensures var lo, size := t.Lo(), Sub32(CodeEnd(t), t.Lo());
            var r := if Wrap(lo + size) > capacity || prohibit[lo / SIZE_64K] then -1 else Piece(lo, size);
            Startable(t, capacity, prohibit) <==> r >= 0
  {
    Geometry(t);
    CodeEndIs(t);
    hide Target.End, Target.Lo, Target.Off, Target.Base, CodeEnd, FlashOffset, AlignDown, Piece, Sub32;
    OffsetInWindow(t.Base(), t.Lo());
    EndInWindow(t.End());
    FirstSize(t.Lo(), CodeEnd(t));
  }

  lemma EndInWindow(end: nat)
    requires end % SECTOR_SIZE == 0
    ensures end % WINDOW % SECTOR_SIZE == 0
  {
    var q, r := end / WINDOW, end / SECTOR_SIZE;
    assert end % WINDOW == (r - q * 0x1000) * SECTOR_SIZE;
    Quotient(r - q * 0x1000, SECTOR_SIZE, 0);
  }

  lemma FirstSize(lo: nat, end: nat)
    requires lo < WINDOW && lo % SECTOR_SIZE == 0 && end % SECTOR_SIZE == 0 && end < WINDOW
    ensures Piece(lo, Sub32(end, lo)) >= 0 <==> lo != end
  {
    if lo < end {
      AtLeastOne(lo, end);
    } else if end < lo {
      AtLeastOne(end, lo);
    }
  }

  /** Different sector boundaries are a sector apart. */
  lemma AtLeastOne(e: nat, end: nat)
    requires e % SECTOR_SIZE == 0 && end % SECTOR_SIZE == 0
    ensures e < end ==> end - e >= SECTOR_SIZE
  {
  }

  /**
    Of the targets that are not on the device, START refuses all that end inside the window;
    those that end at its end or beyond are judged by where they would end in it.
  */
  lemma OutsideAccepted(t: Target, capacity: nat, prohibit: seq<bool>)
    requires t.Flash() && Shape(capacity, prohibit) && t.End() > capacity
    ensures t.Lo() < WINDOW && CodeEnd(t) < WINDOW
    ensures var lo, size := t.Lo(), Sub32(CodeEnd(t), t.Lo());
            var r := if Wrap(lo + size) > capacity || prohibit[lo / SIZE_64K] then -1 else Piece(lo, size);
            r >= 0
            <==> && t.End() >= WINDOW && t.End() % WINDOW <= capacity
                 && t.End() % WINDOW != lo && !prohibit[lo / SIZE_64K]
  {
    hide Startable, Target.End, Target.Lo, Target.Off, Target.Base, CodeEnd, Sub32, Piece;
    StartRequest(t, capacity, prohibit);
    StartableMeans(t, capacity, prohibit);
    EndModulo(t.End());
  }

  // ----- how far a progressive download gets -----

  /**
    Where the erasing of a progressive download ends.  It stops before a prohibited block; and
    for a target that ends at the end of the window, whose computed end is 0, it stops after the
    first command.
  */
  ghost function Limit(t: Target, prohibit: seq<bool>): nat
    requires t.Fits() && |prohibit| == BLOCKS
  {
    Geometry(t);
    if t.End() < WINDOW then FirstRefused(prohibit, t.Lo(), t.End()) else FirstPieceEnd(t.Lo())
  }

  function FirstPieceEnd(lo: nat): nat {
    if Piece(lo, SIZE_64K) < 0 then lo else lo + Piece(lo, SIZE_64K)
  }

  /** What the bookkeeping needs to know about the limit. */
  ghost predicate Stops(t: Target, stop: nat)
  {
    && t.Fits() && t.Lo() < stop <= t.End() && stop % SECTOR_SIZE == 0
    && (stop < t.End() < WINDOW ==> stop % SIZE_64K == 0)
    && (t.End() == WINDOW ==> stop == FirstPieceEnd(t.Lo()))
  }

  lemma LimitIs(t: Target, capacity: nat, prohibit: seq<bool>)
    requires t.Fits() && Shape(capacity, prohibit) && Startable(t, capacity, prohibit)
    ensures Stops(t, Limit(t, prohibit))
    ensures Permitted(prohibit, t.Lo(), Limit(t, prohibit))
    ensures var stop := Limit(t, prohibit);
            stop < t.End() < WINDOW ==> stop / SIZE_64K < BLOCKS && prohibit[stop / SIZE_64K]
  {
    Geometry(t);
    StartableFits(t, capacity, prohibit);
    hide Target.End, Target.Lo, Target.Off, Target.Base, Startable, FirstRefused, Permitted, Piece;
    if t.End() < WINDOW {
      FirstRefusedIs(prohibit, t.Lo(), t.End());
      BlockOfSectors(Limit(t, prohibit));
    } else {
      FirstPiece(t.Lo());
      var p := Piece(t.Lo(), SIZE_64K);
      PieceInOneBlock(t.Lo(), SIZE_64K);
      PermittedStep(prohibit, t.Lo(), t.Lo() + p, t.Lo() + p);
    }
  }

  lemma StartableFits(t: Target, capacity: nat, prohibit: seq<bool>)
    requires t.Fits() && Shape(capacity, prohibit)
    ensures Startable(t, capacity, prohibit)
       <==> && CodeEnd(t) <= capacity && t.Lo() < t.End() && !(t.Lo() == 0 && t.End() == WINDOW)
            && !prohibit[t.Lo() / SIZE_64K]
    ensures CodeEnd(t) == if t.End() == WINDOW then 0 else t.End()
  {
    hide Target.End, Target.Lo, Target.Off, Target.Base, CodeEnd;
    Geometry(t);
    CodeEndIs(t);
    EndModulo(t.End());
    StartableMeans(t, capacity, prohibit);
    hide Startable;
  }

  lemma EndModulo(end: nat)
    ensures end <= WINDOW ==> end % WINDOW == if end == WINDOW then 0 else end
  {
  }

  lemma StartableMeans(t: Target, capacity: nat, prohibit: seq<bool>)
    requires t.Flash() && Shape(capacity, prohibit)
    ensures t.Lo() / SIZE_64K < BLOCKS
    ensures Startable(t, capacity, prohibit)
       <==> t.End() % WINDOW <= capacity && t.End() % WINDOW != t.Lo() && !prohibit[t.Lo() / SIZE_64K]
  {
    hide Target.End, Target.Lo, Target.Off, Target.Base;
    Geometry(t);
  }

  lemma BlockOfSectors(n: nat)
    ensures n % SIZE_64K == 0 ==> n % SECTOR_SIZE == 0
  {
    var q := n / SIZE_64K;
    if n % SIZE_64K == 0 {
      Quotient(16 * q, SECTOR_SIZE, 0);
    }
  }

  /** The first piece of a sector in the window stays in the window. */
  lemma FirstPiece(lo: nat)
    requires lo % SIZE_4K == 0 && lo < WINDOW
    ensures 0 < Piece(lo, SIZE_64K) && lo + Piece(lo, SIZE_64K) <= WINDOW
    ensures FirstPieceEnd(lo) == lo + Piece(lo, SIZE_64K) && FirstPieceEnd(lo) % SECTOR_SIZE == 0
    ensures (FirstPieceEnd(lo) - 1) / SIZE_64K == lo / SIZE_64K
  {
    PieceInOneBlock(lo, SIZE_64K);
    PieceInside(WINDOW, lo, SIZE_64K);
  }

  /** An erase piece does not go beyond the limit. */
  lemma PieceWithin(e: nat, stop: nat, end: nat)
    requires e % SECTOR_SIZE == 0 && stop % SECTOR_SIZE == 0 && end % SECTOR_SIZE == 0 && e < stop <= end
    requires stop == end || stop % SIZE_64K == 0
    ensures 0 < Piece(e, end - e) <= stop - e && (e + Piece(e, end - e)) % SECTOR_SIZE == 0
  {
    AtLeastOne(e, end);
    PieceInOneBlock(e, end - e);
    hide Piece;
    var last := e + Piece(e, end - e) - 1;
    if stop < end && last >= stop {
      BlockBoundary(e, stop, last);
      assert false;
    }
  }

  lemma BlockBoundary(e: nat, stop: nat, last: nat)
    requires e < stop <= last && stop % SIZE_64K == 0
    ensures e / SIZE_64K < last / SIZE_64K
  {
    var q := stop / SIZE_64K;
    assert stop == q * SIZE_64K;
  }

  lemma PieceBySize(offset: nat, size: nat)
    requires size >= SIZE_64K
    ensures Piece(offset, size) == Piece(offset, SIZE_64K)
  {
  }

  // ----- the state between two polls -----

  datatype Progress = Progress(stage: FlashStage, write: nat, erase: nat)
  {
    /** How far was erased; only a refused command leaves the erase address behind. */
    function Erased(): nat {
      if erase < write then write else erase
    }

    /** Address bookkeeping between two polls; received counts the bytes in the ring so far. */
    ghost predicate Good(t: Target, stop: nat, received: nat)
    {
      && Stops(t, stop) && stage != FlashNone && received <= t.total
      && t.start <= write <= t.start + received
      && (write == t.start || (t.total >= PAGE_SIZE && (write - t.Base()) % PAGE_SIZE == 0))
      && (Moving(t, stop) || Stuck(t, stop))
    }

    /** Everything erased so far was granted. */
    ghost predicate Moving(t: Target, stop: nat)
    {
      && write <= erase <= t.Base() + stop
      && (erase - t.Base()) % SECTOR_SIZE == 0 && t.Base() + t.Lo() < erase
      && (t.End() == WINDOW ==> erase == t.Base() + stop)
      && (stage in {FlashErase, FlashWaitData} ==> write < erase)
      && (stage == FlashFinish ==> write == erase == t.Base() + stop && (stop == t.End() || t.End() == WINDOW))
    }

    /** An erase command was refused, and its result -1 was added to the erase address. */
    ghost predicate Stuck(t: Target, stop: nat)
    {
      stage in {FlashErase, FlashWaitData} && stop < t.End() < WINDOW && write == t.Base() + stop == erase + 1
    }

    /** Stages between two programs of a page, in the order they are passed through. */
    ghost function Rank(): nat {
      match stage
      case FlashWrite => 3
      case FlashErase => 2
      case FlashWaitData => 1
      case _ => 0
    }
  }

  /** What a good progress means for the offsets on the device. */
  lemma Offsets(p: Progress, t: Target, stop: nat, received: nat)
    requires p.Good(t, stop, received)
    ensures t.Fits() && Stops(t, stop)
    ensures t.Lo() <= t.Off() < stop && t.Base() + t.Off() == t.start <= p.write <= t.start + received
    ensures t.Base() + t.Lo() < p.Erased() <= t.Base() + stop && p.write <= p.Erased()
    ensures t.Base() < p.erase
    ensures t.Lo() < stop <= t.End() <= WINDOW && received <= t.total && t.Off() + t.total <= t.End()
  {
    Geometry(t);
    hide Target.End, Target.Lo, Target.Off, Target.Base;
    AtLeastOne(t.Lo(), stop);
  }

  // ----- one poll -----

  /** The bytes that wait in the ring, as the code computes them: in 32 bits, taken as a signed number. */
  function Avail(t: Target, write: nat, received: nat): (n: int)
    requires write < TWO32
  {
    var n := Wrap(received + t.start + (TWO32 - write));
    if n < 0x8000_0000 then n else n - TWO32
  }

  /** Adding a size, or the -1 of a refused command, to an address in 32 bits. */
  function Add32(a: nat, d: int): (r: nat)
    requires a < TWO32 && d >= -1
    ensures r < TWO32
  {
    Wrap(a + TWO32 + d)
  }

  /** In range, the unsigned arithmetic of the code is that of the integers. */
  lemma NoOverflow(t: Target, write: nat, received: nat, d: int)
    requires write < TWO32
    ensures -0x8000_0000 <= received + t.start - write < 0x8000_0000 ==>
              Avail(t, write, received) == received + t.start - write
    ensures d >= -1 && 0 <= write + d < TWO32 ==> Add32(write, d) == write + d
  {
  }

  /** What the program command of a poll returns. */
  ghost function PageSize(write: nat, capacity: nat, prohibit: seq<bool>): (n: int)
    requires Shape(capacity, prohibit)
    ensures n == -1 || n > 0
  {
    var offset := FlashOffset(write);
    if offset + PAGE_SIZE > capacity || prohibit[offset / SIZE_64K] then -1 else Chunk(offset, PAGE_SIZE)
  }

  /** What the erase command of a poll returns. */
  ghost function AheadSize(erase: nat, t: Target, capacity: nat, prohibit: seq<bool>): (n: int)
    requires Shape(capacity, prohibit) && FlashOffset(erase) < CodeEnd(t)
    ensures n == -1 || n > 0
  {
    var offset := FlashOffset(erase);
    if CodeEnd(t) > capacity || prohibit[offset / SIZE_64K] then -1 else Piece(offset, CodeEnd(t) - offset)
  }

  /**
    Where one poll takes the state machine; idle tells whether the last command is finished.  The
    result of a refused command, -1, is added to the address like any other.
  */
  ghost function Polled(p: Progress, t: Target, received: nat, idle: bool, capacity: nat, prohibit: seq<bool>):
    (q: Progress)
    requires p.write < TWO32 && p.erase < TWO32 && Shape(capacity, prohibit)
    ensures q.write < TWO32 && q.erase < TWO32 && (q.stage == FlashNone <==> p.stage == FlashNone)
  {
    match p.stage
    case FlashNone => p
    case FlashFinish => p
    case FlashErase => if idle then p.(stage := FlashWaitData) else p
    case FlashWaitData =>
      if Avail(t, p.write, received) < PAGE_SIZE || p.write >= p.erase then p
      else Progress(FlashWrite, Add32(p.write, PageSize(p.write, capacity, prohibit)), p.erase)
    case FlashWrite =>
      if !idle then p
      else if p.write < p.erase then p.(stage := FlashWaitData)
      else if FlashOffset(p.erase) >= CodeEnd(t) then p.(stage := FlashFinish)
      else Progress(FlashErase, p.write, Add32(p.erase, AheadSize(p.erase, t, capacity, prohibit)))
  }

  /** The command that it issues, if any. */
  ghost function Issued(p: Progress, t: Target, received: nat, idle: bool, capacity: nat, prohibit: seq<bool>):
    (cmds: seq<Command>)
    requires p.write < TWO32 && p.erase < TWO32 && Shape(capacity, prohibit)
    ensures |cmds| <= 1
  {
    match p.stage
    case FlashWaitData =>
      if Avail(t, p.write, received) < PAGE_SIZE || p.write >= p.erase then []
      else
        var n := PageSize(p.write, capacity, prohibit);
        if n < 0 then [] else [Programmed(FlashOffset(p.write), n)]
    case FlashWrite =>
      if !idle || p.write < p.erase || FlashOffset(p.erase) >= CodeEnd(t) then []
      else
        var n := AheadSize(p.erase, t, capacity, prohibit);
        if n < 0 then [] else [SpiFlash.Erased(FlashOffset(p.erase), n)]
    case _ => []
  }

  /** What that command does to the device; a page is taken from the slots of its address in the ring. */
  ghost function Carried(cells: seq<bv8>, cmds: seq<Command>, ring: seq<bv8>, write: nat): (r: seq<bv8>)
    requires |ring| == WORKMEM_SIZE
    ensures |r| == |cells|
  {
    if cmds == [] then cells
    else
      match cmds[0]
      case Erased(o, n) => EraseRange(cells, o, o + n)
      case Programmed(o, n) =>
        var pos := write % WORKMEM_SIZE;
        Program(cells, o, ring[pos..Min(pos + n, WORKMEM_SIZE)])
  }

  // ----- the moves of the state machine -----

  /** START: the first erase command puts the bookkeeping in order. */
  lemma StartMove(t: Target, stop: nat, esize: nat)
    requires Stops(t, stop) && esize == Piece(t.Lo(), Sub32(CodeEnd(t), t.Lo()))
    ensures Progress(FlashErase, t.start, t.Base() + t.Lo() + esize).Good(t, stop, 0)
    ensures t.Off() < t.Lo() + esize <= stop
  {
    hide Target.Base, Target.End, Target.Lo, Target.Off, CodeEnd, FirstPieceEnd;
    Geometry(t);
    CodeEndIs(t);
    EndModulo(t.End());
    if t.End() == WINDOW {
      FirstPiece(t.Lo());
      PieceBySize(t.Lo(), Sub32(0, t.Lo()));
    } else {
      PieceWithin(t.Lo(), stop, t.End());
    }
    hide Piece, Sub32;
    AtLeastOne(t.Lo(), t.Lo() + esize);
  }

  lemma StageMove(p: Progress, t: Target, stop: nat, received: nat)
    requires p.Good(t, stop, received) && (p.write < p.erase || p.stage == FlashErase)
    ensures p.(stage := FlashWaitData).Good(t, stop, received)
  {
    hide Target.Base, Target.End, Target.Lo, Target.Off, Stops;
  }

  /** WAIT_DATA with a page available: the program command stays in the page, the ring and the erased part. */
  lemma WriteMove(p: Progress, t: Target, stop: nat, received: nat, n: nat)
    requires p.Good(t, stop, received) && p.stage == FlashWaitData && p.write < p.erase
    requires received - (p.write - t.start) >= PAGE_SIZE
    requires n == Chunk(FlashOffset(p.write), PAGE_SIZE)
    ensures FlashOffset(p.write) == t.Off() + (p.write - t.start)
    ensures FlashOffset(p.write) + PAGE_SIZE <= t.End() <= WINDOW && FlashOffset(p.write) < stop
    ensures n > 0 && p.write - t.start + n <= received
    ensures t.Off() + (p.write - t.start) + n <= p.erase - t.Base()
    ensures p.write % WORKMEM_SIZE + n <= WORKMEM_SIZE
    ensures Progress(FlashWrite, p.write + n, p.erase).Good(t, stop, received)
    ensures p.Erased() == p.erase == Progress(FlashWrite, p.write + n, p.erase).Erased()
  {
    hide Target.Base, Target.End, Target.Lo, Target.Off, FlashOffset, Chunk, AlignDown;
    Geometry(t);
    BaseOfRings(t);
    var w := p.write - t.Base();
    OffsetInWindow(t.Base(), w);
    SamePage(t.Base(), w);
    PageMove(w, p.erase - t.Base());
  }

  lemma BaseOfRings(t: Target)
    ensures t.Base() % WORKMEM_SIZE == 0
  {
    BaseAligned(t.start);
  }

  lemma SamePage(base: nat, w: nat)
    requires base % WORKMEM_SIZE == 0
    ensures (base + w) % WORKMEM_SIZE == w % WORKMEM_SIZE
  {
  }

  lemma PageMove(w: nat, e: nat)
    requires w < e && e % SECTOR_SIZE == 0
    ensures var n := Chunk(w, PAGE_SIZE);
            && 0 < n <= PAGE_SIZE && w + n <= e && (w + n) % PAGE_SIZE == 0
            && w % WORKMEM_SIZE + n <= WORKMEM_SIZE
  {
    PageRest(w, PAGE_SIZE);
    hide Chunk;
    SectorOfPages(e);
    RingOfPages(w);
    var q := w / PAGE_SIZE;
    assert w + Chunk(w, PAGE_SIZE) == (q + 1) * PAGE_SIZE;
  }

  lemma SectorOfPages(e: nat)
    requires e % SECTOR_SIZE == 0
    ensures e % PAGE_SIZE == 0
  {
    assert e == (e / SECTOR_SIZE) * 16 * PAGE_SIZE;
  }

  lemma RingOfPages(w: nat)
    ensures w % WORKMEM_SIZE - w % PAGE_SIZE <= WORKMEM_SIZE - PAGE_SIZE
  {
    var q := w / PAGE_SIZE;
    Quotient(q / 0x200, WORKMEM_SIZE, (q % 0x200) * PAGE_SIZE + w % PAGE_SIZE);
  }

  /** WRITE finished at the end of the erased part: erase the next piece, finish, or be refused. */
  lemma EraseMove(p: Progress, t: Target, stop: nat, received: nat)
    requires p.Good(t, stop, received) && p.stage == FlashWrite && p.write >= p.erase
    ensures p.write == p.erase == p.Erased()
    ensures FlashOffset(p.erase) >= CodeEnd(t) ==> Progress(FlashFinish, p.write, p.erase).Good(t, stop, received)
    ensures FlashOffset(p.erase) < CodeEnd(t) ==>
              var e, esize := FlashOffset(p.erase), Piece(FlashOffset(p.erase), CodeEnd(t) - FlashOffset(p.erase));
              && e == p.erase - t.Base() <= stop && e < t.End() == CodeEnd(t) < WINDOW
              && (e == stop ==> Progress(FlashErase, p.write, p.erase - 1).Good(t, stop, received)
                                && Progress(FlashErase, p.write, p.erase - 1).Erased() == p.erase)
              && (e < stop ==> esize > 0 && e + esize <= stop
                               && Progress(FlashErase, p.write, p.erase + esize).Good(t, stop, received)
                               && Progress(FlashErase, p.write, p.erase + esize).Erased() == p.erase + esize)
  {
    hide Target.End, Target.Lo, Target.Off, Target.Base, CodeEnd, FlashOffset, Piece;
    Geometry(t);
    CodeEndIs(t);
    var e := p.erase - t.Base();
    OffsetInWindow(t.Base(), e);
    if FlashOffset(p.erase) < CodeEnd(t) && e < stop {
      PieceWithin(e, stop, t.End());
    }
  }

  lemma PermittedAt(prohibit: seq<bool>, lo: nat, hi: nat, i: nat)
    requires Permitted(prohibit, lo, hi) && lo <= i < hi
    ensures i / SIZE_64K < |prohibit| && !prohibit[i / SIZE_64K]
  {
  }

  /** Good addresses are far from the ends of the address space. */
  lemma Bounds(p: Progress, t: Target, stop: nat, received: nat)
    requires p.Good(t, stop, received)
    ensures 0 < p.write <= t.Base() + WINDOW < TWO32 && 0 < p.erase <= t.Base() + WINDOW
    ensures Avail(t, p.write, received) == received - (p.write - t.start)
  {
    Geometry(t);
    Offsets(p, t, stop, received);
    NoOverflow(t, p.write, received, 0);
    hide Target.Base, Target.Off, Target.Lo, Target.End, Avail, Add32;
  }

  /**
    Every poll keeps the address bookkeeping, whatever the device and the host are doing, and
    whichever blocks are prohibited.
  */
  lemma PollKeepsGood(p: Progress, t: Target, received: nat, idle: bool, capacity: nat, prohibit: seq<bool>)
    requires t.Fits() && Shape(capacity, prohibit) && Startable(t, capacity, prohibit) && t.End() <= capacity
    requires p.Good(t, Limit(t, prohibit), received)
    ensures p.write < TWO32 && p.erase < TWO32
    ensures var q := Polled(p, t, received, idle, capacity, prohibit);
            q.Good(t, Limit(t, prohibit), received) && p.write <= q.write && p.Erased() <= q.Erased()
  {
    hide Progress.Good, Progress.Moving, Progress.Stuck, CodeEnd, FlashOffset, Piece, Chunk, Permitted, Limit;
    hide Startable;
    hide Target.Base, Target.Off, Target.Lo, Target.End, Stops, Avail, Add32, PageSize, AheadSize;
    var stop := Limit(t, prohibit);
    LimitIs(t, capacity, prohibit);
    Offsets(p, t, stop, received);
    Bounds(p, t, stop, received);
    match p.stage
    case FlashErase => StageMove(p, t, stop, received);
    case FlashWaitData =>
      if Avail(t, p.write, received) >= PAGE_SIZE && p.write < p.erase {
        PageStep(p, t, received, capacity, prohibit);
      }
    case FlashWrite =>
      if p.write < p.erase {
        StageMove(p, t, stop, received);
      } else if FlashOffset(p.erase) >= CodeEnd(t) {
        EraseMove(p, t, stop, received);
      } else {
        AheadStep(p, t, received, capacity, prohibit);
      }
    case _ =>
  }

  /** With a page waiting, the program command of a poll is not refused. */
  lemma PageStep(p: Progress, t: Target, received: nat, capacity: nat, prohibit: seq<bool>)
    requires t.Fits() && Shape(capacity, prohibit) && Startable(t, capacity, prohibit) && t.End() <= capacity
    requires p.Good(t, Limit(t, prohibit), received) && p.stage == FlashWaitData && p.write < p.erase
    requires received - (p.write - t.start) >= PAGE_SIZE
    ensures p.write < TWO32 && FlashOffset(p.write) + PAGE_SIZE <= capacity
    ensures var n := Chunk(FlashOffset(p.write), PAGE_SIZE);
            && 0 < n && PageSize(p.write, capacity, prohibit) == n && Add32(p.write, n) == p.write + n
            && Progress(FlashWrite, p.write + n, p.erase).Good(t, Limit(t, prohibit), received)
            && p.Erased() == p.erase == Progress(FlashWrite, p.write + n, p.erase).Erased()
  {
    hide Progress.Good, Progress.Moving, Progress.Stuck, CodeEnd, FlashOffset, Piece, Chunk, Permitted, Limit;
    hide Startable;
    hide Target.Base, Target.Off, Target.Lo, Target.End, Stops, Avail, Add32;
    var stop, n := Limit(t, prohibit), Chunk(FlashOffset(p.write), PAGE_SIZE);
    LimitIs(t, capacity, prohibit);
    Offsets(p, t, stop, received);
    WriteMove(p, t, stop, received, n);
    PermittedAt(prohibit, t.Lo(), stop, FlashOffset(p.write));
    Bounds(Progress(FlashWrite, p.write + n, p.erase), t, stop, received);
    NoOverflow(t, p.write, received, n);
  }

  /** Erasing ahead: the next piece, or at the limit a refusal. */
  lemma AheadStep(p: Progress, t: Target, received: nat, capacity: nat, prohibit: seq<bool>)
    requires t.Fits() && Shape(capacity, prohibit) && Startable(t, capacity, prohibit) && t.End() <= capacity
    requires p.Good(t, Limit(t, prohibit), received) && p.stage == FlashWrite && p.write >= p.erase
    requires FlashOffset(p.erase) < CodeEnd(t)
    ensures p.erase < TWO32 && p.write == p.erase == p.Erased() == t.Base() + FlashOffset(p.erase)
    ensures var e, n := FlashOffset(p.erase), AheadSize(p.erase, t, capacity, prohibit);
            && e <= Limit(t, prohibit) && (n < 0 <==> e == Limit(t, prohibit)) && Add32(p.erase, n) == p.erase + n
            && (n >= 0 ==> n == Piece(e, CodeEnd(t) - e) && e + n <= Limit(t, prohibit))
            && Progress(FlashErase, p.write, p.erase + n).Good(t, Limit(t, prohibit), received)
            && Progress(FlashErase, p.write, p.erase + n).Erased() == if n < 0 then p.erase else p.erase + n
  {
    hide Progress.Good, Progress.Moving, Progress.Stuck, CodeEnd, FlashOffset, Piece, Chunk, Permitted, Limit;
    hide Startable;
    hide Target.Base, Target.Off, Target.Lo, Target.End, Stops, Avail, Add32;
    var stop, e := Limit(t, prohibit), FlashOffset(p.erase);
    LimitIs(t, capacity, prohibit);
    Offsets(p, t, stop, received);
    Bounds(p, t, stop, received);
    EraseMove(p, t, stop, received);
    LimitAt(t, capacity, prohibit, e);
    var n := AheadSize(p.erase, t, capacity, prohibit);
    Bounds(Progress(FlashErase, p.write, p.erase + n), t, stop, received);
    NoOverflow(t, p.erase, received, n);
  }

  /** At the limit the next command is refused, before it the command is granted. */
  lemma LimitAt(t: Target, capacity: nat, prohibit: seq<bool>, e: nat)
    requires t.Fits() && Shape(capacity, prohibit) && Startable(t, capacity, prohibit)
    requires t.Lo() <= e <= Limit(t, prohibit) && e < t.End() < WINDOW
    ensures e / SIZE_64K < BLOCKS && (prohibit[e / SIZE_64K] <==> e == Limit(t, prohibit))
  {
    hide Limit, Startable, Permitted, Target.Lo, Target.End;
    LimitIs(t, capacity, prohibit);
    if e < Limit(t, prohibit) {
      PermittedAt(prohibit, t.Lo(), Limit(t, prohibit), e);
    }
  }

  lemma GoodMore(p: Progress, t: Target, stop: nat, received: nat, more: nat)
    requires p.Good(t, stop, received) && received <= more <= t.total
    ensures p.Good(t, stop, more)
  {
  }

  /** With a page of data waiting before the limit, a poll moves on. */
  lemma PageWaiting(p: Progress, t: Target, stop: nat, received: nat)
    requires p.Good(t, stop, received) && received - (p.write - t.start) >= PAGE_SIZE
    requires stop == t.End() || p.write < t.Base() + stop
    ensures p.stage in {FlashErase, FlashWrite} || (p.stage == FlashWaitData && p.write < p.erase)
  {
    Geometry(t);
    hide Target.End, Target.Lo, Target.Off, Target.Base;
  }

  // ----- the end of a download -----

  /** The final write of the target reads one stretch of the ring. */
  predicate RingFits(t: Target) {
    t.total >= PAGE_SIZE || t.start % WORKMEM_SIZE + t.total <= WORKMEM_SIZE
  }

  /**
    When less than a page remains, the final write reads one stretch of the ring, exactly if the
    target is not a tiny one that wraps around in the ring.
  */
  lemma RestIsLinear(p: Progress, t: Target, stop: nat)
    requires p.Good(t, stop, t.total) && t.start + t.total - p.write < PAGE_SIZE
    ensures p.write % WORKMEM_SIZE + (t.start + t.total - p.write) <= WORKMEM_SIZE <==> RingFits(t)
    ensures !RingFits(t) ==> p.write == t.start
  {
    hide Target.End, Target.Lo, Target.Off, Target.Base, Progress.Moving, Progress.Stuck, Stops;
    if p.write != t.start {
      Offsets(p, t, stop, t.total);
      BaseOfRings(t);
      var w := p.write - t.Base();
      SamePage(t.Base(), w);
      RingOfPages(w);
    }
  }

  /** The loop of END is left, sooner or later, exactly for these targets. */
  predicate Ends(t: Target, stop: nat) {
    stop == t.End() || t.Off() + t.total < stop + PAGE_SIZE
  }

  /** The bytes of the target that are programmed in the end. */
  function Kept(t: Target, stop: nat): (n: nat)
    ensures n <= t.total
  {
    if t.Off() <= stop < t.End() < WINDOW then Min(stop - t.Off(), t.total) else t.total
  }

  /** What END still has to erase: nothing, the part up to the limit, or what is refused at once. */
  lemma RestToErase(p: Progress, t: Target, capacity: nat, prohibit: seq<bool>)
    requires t.Fits() && Shape(capacity, prohibit) && Startable(t, capacity, prohibit) && t.End() <= capacity
    requires p.Good(t, Limit(t, prohibit), t.total)
    ensures var stop, e, f := Limit(t, prohibit), p.Erased() - t.Base(), FlashOffset(p.erase);
            && (f >= CodeEnd(t) ==> e == stop)
            && (f < CodeEnd(t) ==>
                  var reach := EraseReach(capacity, prohibit, f, CodeEnd(t) - f);
                  || (f == e && f + reach == stop)
                  || (reach == 0 && e == stop))
  {
    hide Target.End, Target.Lo, Target.Off, Target.Base, CodeEnd, FlashOffset, Limit, Startable, Permitted;
    hide EraseReach, FirstRefused;
    var stop := Limit(t, prohibit);
    Geometry(t);
    CodeEndIs(t);
    LimitIs(t, capacity, prohibit);
    OffsetInWindow(t.Base(), p.erase - t.Base());
    var f := FlashOffset(p.erase);
    if f < CodeEnd(t) {
      if p.Stuck(t, stop) {
        UnalignedReach(capacity, prohibit, f, CodeEnd(t) - f, stop);
      } else {
        AlignedReach(capacity, prohibit, t.Lo(), f, stop, t.End());
      }
    }
  }

  lemma UnalignedReach(capacity: nat, prohibit: seq<bool>, f: nat, size: nat, stop: nat)
    requires Shape(capacity, prohibit) && f + 1 == stop && stop % SECTOR_SIZE == 0
    ensures EraseReach(capacity, prohibit, f, size) == 0
  {
    assert f % SECTOR_SIZE != 0;
    if size > 0 {
      EraseReachStep(capacity, prohibit, f, size);
    } else {
      NothingReached(capacity, prohibit, f);
    }
  }

  lemma AlignedReach(capacity: nat, prohibit: seq<bool>, lo: nat, f: nat, stop: nat, end: nat)
    requires Shape(capacity, prohibit) && lo <= f <= stop <= end <= capacity
    requires f % SECTOR_SIZE == 0 && end % SECTOR_SIZE == 0
    requires Permitted(prohibit, lo, stop) && (stop < end ==> prohibit[stop / SIZE_64K])
    ensures f + EraseReach(capacity, prohibit, f, end - f) == stop
  {
    hide EraseReach, FirstRefused;
    assert (end - f) % SECTOR_SIZE == 0;
    EraseReachIs(capacity, prohibit, f, end - f);
    FirstRefusedUnique(prohibit, f, end, stop);
  }

  /** How far the final write gets. */
  lemma RestToWrite(p: Progress, t: Target, capacity: nat, prohibit: seq<bool>)
    requires t.Fits() && Shape(capacity, prohibit) && Startable(t, capacity, prohibit) && t.End() <= capacity
    requires p.Good(t, Limit(t, prohibit), t.total) && Ends(t, Limit(t, prohibit))
    ensures var stop, w := Limit(t, prohibit), p.write - t.start;
            && w <= Kept(t, stop) <= t.total
            && w + WriteReach(capacity, prohibit, t.Off() + w, t.total - w) == Kept(t, stop)
            && (stop == t.End() ==> Kept(t, stop) == t.total)
  {
    hide Target.End, Target.Lo, Target.Off, Target.Base, Limit, Startable, Permitted, WriteReach, AlignUp;
    var stop, w := Limit(t, prohibit), p.write - t.start;
    LimitIs(t, capacity, prohibit);
    Offsets(p, t, stop, t.total);
    EndOf(t);
    hide Progress.Good, Stops;
    WriteFrom(capacity, prohibit, t.Lo(), t.Off(), w, t.total, stop, t.End());
  }

  lemma WriteFrom(capacity: nat, prohibit: seq<bool>, lo: nat, off: nat, w: nat, total: nat, stop: nat, end: nat)
    requires Shape(capacity, prohibit) && lo <= off && lo < stop && off + w <= stop <= end <= WINDOW && w <= total
    requires end == AlignUp(off + total, SECTOR_SIZE) && off + total <= end <= capacity && stop % SECTOR_SIZE == 0
    requires Permitted(prohibit, lo, stop) && (stop < end < WINDOW ==> prohibit[stop / SIZE_64K])
    requires stop == end || off + total < stop + PAGE_SIZE
    ensures stop < end ==> stop < off + total
    ensures off + w + WriteReach(capacity, prohibit, off + w, total - w)
         == if stop < end < WINDOW then stop else off + total
  {
    hide WriteReach, FirstRefused, Permitted, AlignUp;
    WriteReachIs(capacity, prohibit, off + w, total - w);
    if stop < end {
      NotAlignedEarlier(off + total, stop);
    }
    if stop < end < WINDOW {
      PermittedPart(prohibit, lo, stop, off + w, stop);
      FirstRefusedUnique(prohibit, off + w, off + total, stop);
    } else {
      if stop < end {
        LastSectors(prohibit, lo, stop, off + total);
        PermittedPart(prohibit, lo, off + total, off + w, off + total);
      } else {
        PermittedPart(prohibit, lo, stop, off + w, off + total);
      }
      FirstRefusedUnique(prohibit, off + w, off + total, off + total);
    }
  }

  lemma NotAlignedEarlier(end: nat, stop: nat)
    requires stop % SECTOR_SIZE == 0 && stop < AlignUp(end, SECTOR_SIZE)
    ensures stop < end
  {
  }

  lemma PermittedPart(prohibit: seq<bool>, lo: nat, hi: nat, lo': nat, hi': nat)
    requires Permitted(prohibit, lo, hi) && lo <= lo' && hi' <= hi
    ensures Permitted(prohibit, lo', hi')
  {
  }

  lemma EndOf(t: Target)
    ensures t.End() == AlignUp(t.Off() + t.total, SECTOR_SIZE)
  {
  }

  /** Less than a page behind the limit, at the end of the window, one is still in the last block. */
  lemma LastSectors(prohibit: seq<bool>, lo: nat, stop: nat, end: nat)
    requires |prohibit| == BLOCKS && lo < stop < WINDOW && stop % SECTOR_SIZE == 0 && Permitted(prohibit, lo, stop)
    requires stop < end < stop + PAGE_SIZE && AlignUp(end, SECTOR_SIZE) == WINDOW
    ensures Permitted(prohibit, lo, end)
  {
    assert stop == WINDOW - SECTOR_SIZE by {
      AtLeastOne(stop, WINDOW);
    }
    assert !prohibit[(stop - 1) / SIZE_64K];
    forall i | lo <= i < end
      ensures 0 <= i / SIZE_64K < |prohibit| && !prohibit[i / SIZE_64K]
    {
      if i >= stop {
        assert i / SIZE_64K == (stop - 1) / SIZE_64K == 255;
      }
    }
  }
}
