/**
  The flash path of the download commands in boot_fdl_dnld.c.

  Data is received into a ring while the flash is erased ahead and programmed page by page.
  Polls, packets and the busy time of the device interleave arbitrarily.
*/
module FlashDownload {

  import opened SpiFlash
  import opened FlashImage
  import opened FlashProgress
  import opened FlashLeftover
  import opened Crc
  import opened Words

  datatype Stage = StageNone | StageStart | StageGather | StageEnd
  datatype Reply = Ack | NotStarted | DestError | SizeError | VerifyError | NotEnoughMemory | OperationFailed

  // ----- what END leaves behind -----

  /**
    The bytes that the final write reads for the whole target.  For a tiny target that wraps
    around in the ring they come from the memory behind it.
  */
  function Sent(t: Target, payload: seq<bv8>, behind: seq<bv8>): (d: seq<bv8>)
    requires |payload| == t.total && |behind| >= PAGE_SIZE - 1
    ensures |d| == t.total
  {
    if RingFits(t) then payload
    else
      var tail := WORKMEM_SIZE - t.start % WORKMEM_SIZE;
      payload[..tail] + behind[..t.total - tail]
  }

  /** The device when everything up to the limit was erased, and all that can be was programmed. */
  function Leaves(t: Target, stop: nat, cells: seq<bv8>, sent: seq<bv8>): (r: seq<bv8>)
    requires Kept(t, stop) <= |sent|
    ensures |r| == |cells|
  {
    Program(EraseRange(cells, t.Lo(), stop), t.Off(), sent[..Kept(t, stop)])
  }

  /** END never gets past its loop, or it leaves the device like this and replies. */
  datatype Ending = Never | Replies(cells: seq<bv8>, reply: Reply)

  /**
    How a progressive download ends: payload is what was sent as the ring held it, and the reply
    tells whether what is on the device has the CRC of what was sent.
  */
  ghost function Outcome(t: Target, crc: Crc32, prohibit: seq<bool>, cells: seq<bv8>,
                         sent: seq<bv8>, payload: seq<bv8>, behind: seq<bv8>): (e: Ending)
    requires t.Fits() && |prohibit| == BLOCKS && t.Off() + t.total <= |cells|
    requires |payload| == t.total && |behind| >= PAGE_SIZE - 1
    ensures e.Replies? ==> e.reply in {Ack, VerifyError}
  {
    var stop := Limit(t, prohibit);
    if !Ends(t, stop) then Never
    else
      var left := Leaves(t, stop, cells, Sent(t, payload, behind));
      Replies(left, if crc.Calc(left[t.Off()..t.Off() + t.total]) == crc.Calc(sent) then Ack else VerifyError)
  }

  lemma OutcomeWhenEnds(t: Target, crc: Crc32, prohibit: seq<bool>, cells: seq<bv8>,
                        sent: seq<bv8>, payload: seq<bv8>, behind: seq<bv8>)
    requires t.Fits() && |prohibit| == BLOCKS && t.Off() + t.total <= |cells|
    requires |payload| == t.total && |behind| >= PAGE_SIZE - 1 && Ends(t, Limit(t, prohibit))
    ensures var left := Leaves(t, Limit(t, prohibit), cells, Sent(t, payload, behind));
            Outcome(t, crc, prohibit, cells, sent, payload, behind)
            == Replies(left, if crc.Calc(left[t.Off()..t.Off() + t.total]) == crc.Calc(sent) then Ack else VerifyError)
  {
    hide Ends, Limit, Leaves, Sent, Target.Off, Crc32.Calc;
  }

  /**
    END acknowledges a device that holds what was sent, and if the CRC is injective in each step,
    it does not acknowledge one that differs from what was sent in exactly one byte of the target.
  */
  lemma EndTells(t: Target, crc: Crc32, prohibit: seq<bool>, cells: seq<bv8>,
                 sent: seq<bv8>, payload: seq<bv8>, behind: seq<bv8>, k: nat)
    requires t.Fits() && |prohibit| == BLOCKS && t.Off() + t.total <= |cells|
    requires |payload| == |sent| == t.total && |behind| >= PAGE_SIZE - 1 && k < t.total
    ensures var e := Outcome(t, crc, prohibit, cells, sent, payload, behind);
            e.Replies? ==>
              && |e.cells| == |cells|
              && (e.cells[t.Off()..t.Off() + t.total] == sent ==> e.reply == Ack)
              && (crc.Injective() && e.cells[t.Off() + k] != sent[k]
                  && (forall i :: 0 <= i < t.total && i != k ==> e.cells[t.Off()..t.Off() + t.total][i] == sent[i]) ==>
                    e.reply == VerifyError)
  {
    hide Ends, Limit, Leaves, Sent, Target.Off, Crc32.Calc, Crc32.Injective;
    var e := Outcome(t, crc, prohibit, cells, sent, payload, behind);
    if e.Replies? {
      var held := e.cells[t.Off()..t.Off() + t.total];
      if crc.Injective() && held[k] != sent[k] && forall i :: 0 <= i < t.total && i != k ==> held[i] == sent[i] {
        crc.OneByteTells(held, sent, k);
      }
    }
  }

  /** The whole cover of the target can be erased and written. */
  ghost predicate Writable(t: Target, capacity: nat, prohibit: seq<bool>)
    requires t.Fits()
  {
    t.Lo() == t.End() || (t.End() <= capacity && Permitted(prohibit, t.Lo(), t.End()))
  }

  /**
    What a whole-file download may leave, by its reply: before the end of the window the image,
    acknowledged exactly if the cover can be erased and written.  At the end of the window it is
    acknowledged only without erasing, or after leaving the device, and behind it only after that.
  */
  ghost predicate WholeOutcome(t: Target, capacity: nat, prohibit: seq<bool>, cells: seq<bv8>, sent: seq<bv8>,
                               cells': seq<bv8>, issued: seq<Command>, r: Reply)
  {
    && r in {Ack, VerifyError}
    && (t.Off() + t.total < WINDOW ==>
          && t.Fits() && r == (if Writable(t, capacity, prohibit) then Ack else VerifyError)
          && (r == Ack ==> cells' == t.Image(cells, sent)))
    && (t.Off() + t.total == WINDOW && r == Ack ==>
          (t.Lo() == 0 && cells' == Program(cells, t.Off(), sent)) || Strays(issued, capacity))
    && (t.Off() + t.total > WINDOW && r == Ack ==> Strays(issued, capacity))
  }

  /** One erase command was issued. */
  ghost predicate OneErase(log: seq<Command>, log': seq<Command>, offset: nat) {
    exists n :: n > 0 && log' == log + [SpiFlash.Erased(offset, n)]
  }

  /** The state after START was accepted: the first piece of the cover is being erased. */
  ghost predicate FirstProgress(p: Progress, t: Target)
    requires t.Flash()
  {
    Geometry(t);
    && p.stage == FlashErase && p.write == t.start
    && p.erase == t.Base() + t.Lo() + Piece(t.Lo(), Sub32(CodeEnd(t), t.Lo()))
  }

  // ----- the moves on values -----

  lemma SlicePrefix(s: seq<bv8>, lo: nat, hi: nat, n: nat)
    requires lo + n <= hi <= |s|
    ensures s[lo..hi][..n] == s[lo..lo + n]
  {
  }

  /** The rest of a page never wraps around in the ring. */
  lemma PageInRing(write: nat)
    ensures write % WORKMEM_SIZE + Chunk(FlashOffset(write), PAGE_SIZE) <= WORKMEM_SIZE
  {
    hide Chunk;
    var q, o := write / WINDOW, write % WINDOW;
    WindowOfRings(q);
    SamePage(q * WINDOW, o);
    PageMove(o, WINDOW);
  }

  lemma RingShrink(ring: seq<bv8>, start: nat, from: nat, from': nat, to: nat, payload: seq<bv8>)
    requires RingHolds(ring, start, from, to, payload) && from <= from' <= to
    ensures RingHolds(ring, start, from', to, payload)
  {
  }

  lemma RingSize(ring: seq<bv8>, start: nat, from: nat, to: nat, payload: seq<bv8>)
    requires RingHolds(ring, start, from, to, payload)
    ensures |ring| == WORKMEM_SIZE
  {
  }

  /** Programming the next n payload bytes extends the part that is on the device. */
  lemma BurnMore(cells: seq<bv8>, lo: nat, hi: nat, off: nat, payload: seq<bv8>, w: nat, n: nat)
    requires lo <= off && w + n <= |payload| && off + w + n <= hi
    ensures Program(Burn(cells, lo, hi, off, payload[..w]), off + w, payload[w..w + n])
         == Burn(cells, lo, hi, off, payload[..w + n])
  {
    BurnProgram(cells, lo, hi, off, payload[..w], payload[w..w + n]);
    assert payload[..w] + payload[w..w + n] == payload[..w + n];
  }

  /** What is burnt was erased and then programmed. */
  lemma BurnIs(cells: seq<bv8>, lo: nat, hi: nat, off: nat, data: seq<bv8>)
    requires lo <= off && off + |data| <= hi
    ensures Burn(cells, lo, hi, off, data) == Program(EraseRange(cells, lo, hi), off, data)
  {
    BurnNothing(cells, lo, off);
    BurnErase(cells, lo, lo, hi, off, []);
    BurnProgram(cells, lo, hi, off, [], data);
    assert [] + data == data;
  }

  /** One more command in the log. */
  lemma TidyNext(log: seq<Command>, logged: nat, c: Command, lo: nat, off: nat, erased: nat, written: nat)
    requires logged <= |log| && Tidy(log[logged..], lo, off, erased, written)
    ensures c.Erased? && c.offset == erased && (written == off || written <= erased) ==>
              Tidy((log + [c])[logged..], lo, off, erased + c.size, written)
    ensures c.Programmed? && c.offset == written && written + c.size <= erased ==>
              Tidy((log + [c])[logged..], lo, off, erased, written + c.size)
  {
    hide Tidy;
    assert (log + [c])[logged..] == log[logged..] + [c];
    TidyMore(log[logged..], c, lo, off, erased, written);
  }

  /** The bytes that a page write takes from the ring are the next ones, and reach the device unchanged. */
  lemma ProgramMove(p: Progress, t: Target, stop: nat, received: nat, n: nat,
                    ring: seq<bv8>, payload: seq<bv8>, cells: seq<bv8>)
    requires p.Good(t, stop, received) && p.stage == FlashWaitData && p.write < p.erase
    requires t.start <= p.write && received - (p.write - t.start) >= PAGE_SIZE
    requires n == Chunk(FlashOffset(p.write), PAGE_SIZE) && |payload| == received
    requires RingHolds(ring, t.start, p.write - t.start, received, payload)
    ensures var w, e, pos := p.write - t.start, p.erase - t.Base(), p.write % WORKMEM_SIZE;
            var q := Progress(FlashWrite, p.write + n, p.erase);
            && t.Base() <= p.erase && 0 < n && w + n <= received && pos + n <= WORKMEM_SIZE == |ring|
            && FlashOffset(p.write) == t.Off() + w && FlashOffset(p.write) + PAGE_SIZE <= t.End() <= WINDOW
            && t.Lo() <= FlashOffset(p.write) < stop && FlashOffset(p.write) + n <= e
            && q.Good(t, stop, received) && p.Erased() == p.erase == q.Erased()
            && RingHolds(ring, t.start, w + n, received, payload)
            && Program(Burn(cells, t.Lo(), e, t.Off(), payload[..w]), FlashOffset(p.write), ring[pos..pos + n])
               == Burn(cells, t.Lo(), e, t.Off(), payload[..w + n])
  {
    hide Progress.Good, RingHolds, Burn, Program, Chunk, Stops;
    hide Target.Base, Target.Off, Target.Lo, Target.End, FlashOffset;
    Offsets(p, t, stop, received);
    WriteMove(p, t, stop, received, n);
    var w, e := p.write - t.start, p.erase - t.Base();
    RingSize(ring, t.start, w, received, payload);
    RingLinear(ring, t.start, w, received, payload, n);
    RingShrink(ring, t.start, w, w + n, received, payload);
    BurnMore(cells, t.Lo(), e, t.Off(), payload, w, n);
  }

  /** The first command leaves the device as the bookkeeping says. */
  lemma StartBurn(t: Target, esize: nat, cells: seq<bv8>)
    requires t.Lo() <= t.Off()
    ensures EraseRange(cells, t.Lo(), t.Lo() + esize) == Burn(cells, t.Lo(), t.Lo() + esize, t.Off(), [])
  {
    hide Burn, EraseRange, Target.Lo, Target.Off;
    BurnNothing(cells, t.Lo(), t.Off());
    BurnErase(cells, t.Lo(), t.Lo(), t.Lo() + esize, t.Off(), []);
  }

  lemma StartTidy(c: Command, log: seq<Command>, off: nat)
    requires c.Erased?
    ensures Tidy((log + [c])[|log|..], c.offset, off, c.offset + c.size, off)
  {
    assert log[|log|..] == [];
    TidyNext(log, |log|, c, c.offset, off, c.offset, off);
  }

  /** The state after an accepted START. */
  lemma StartState(t: Target, capacity: nat, prohibit: seq<bool>, esize: nat, cells: seq<bv8>, log: seq<Command>)
    requires t.Fits() && Shape(capacity, prohibit) && Startable(t, capacity, prohibit) && t.End() <= capacity
    requires esize == Piece(t.Lo(), Sub32(CodeEnd(t), t.Lo()))
    ensures var p := Progress(FlashErase, t.start, t.Base() + t.Lo() + esize);
            && p.Good(t, Limit(t, prohibit), 0) && p.Erased() == p.erase
            && t.Lo() + esize <= t.End() && t.start == t.Base() + t.Off()
            && EraseRange(cells, t.Lo(), t.Lo() + esize) == Burn(cells, t.Lo(), t.Lo() + esize, t.Off(), [])
            && Tidy((log + [SpiFlash.Erased(t.Lo(), esize)])[|log|..], t.Lo(), t.Off(), t.Lo() + esize, t.Off())
  {
    hide Progress.Good, Burn, Permitted, EraseRange, Piece, Limit, Startable, Tidy, Stops;
    hide Target.Base, Target.Off, Target.Lo, Target.End, CodeEnd, Sub32;
    LimitIs(t, capacity, prohibit);
    StartMove(t, Limit(t, prohibit), esize);
    Offsets(Progress(FlashErase, t.start, t.Base() + t.Lo() + esize), t, Limit(t, prohibit), 0);
    StartBurn(t, esize, cells);
    StartTidy(SpiFlash.Erased(t.Lo(), esize), log, t.Off());
  }

  /** The stretch of memory that the final write reads. */
  lemma SentRest(t: Target, ring: seq<bv8>, behind: seq<bv8>, w: nat, payload: seq<bv8>)
    requires |payload| == t.total && |behind| >= PAGE_SIZE - 1 && w <= t.total < w + PAGE_SIZE
    requires RingHolds(ring, t.start, w, t.total, payload)
    requires RingFits(t) ==> (t.start + w) % WORKMEM_SIZE + (t.total - w) <= WORKMEM_SIZE
    requires !RingFits(t) ==> w == 0
    ensures var pos := (t.start + w) % WORKMEM_SIZE;
            && pos + (t.total - w) <= WORKMEM_SIZE + |behind|
            && (ring + behind)[pos..pos + (t.total - w)] == Sent(t, payload, behind)[w..]
            && payload[..w] == Sent(t, payload, behind)[..w]
  {
    var pos, n := (t.start + w) % WORKMEM_SIZE, t.total - w;
    RingSize(ring, t.start, w, t.total, payload);
    if RingFits(t) {
      RingLinear(ring, t.start, w, t.total, payload, n);
      hide RingHolds, RingFits;
      SliceOfFirst(ring, behind, pos, pos + n);
      assert payload[w..w + n] == payload[w..];
    } else {
      var tail := WORKMEM_SIZE - t.start % WORKMEM_SIZE;
      RingLinear(ring, t.start, 0, t.total, payload, tail);
      hide RingHolds, RingFits;
      SliceOfBoth(ring, behind, pos, pos + n);
      assert ring[pos..pos + tail] == ring[pos..];
      assert payload[0..tail] == payload[..tail];
    }
  }

  lemma SliceOfFirst(a: seq<bv8>, b: seq<bv8>, lo: nat, hi: nat)
    requires lo <= hi <= |a|
    ensures (a + b)[lo..hi] == a[lo..hi]
  {
  }

  lemma SliceOfBoth(a: seq<bv8>, b: seq<bv8>, lo: nat, hi: nat)
    requires lo <= |a| <= hi <= |a| + |b|
    ensures (a + b)[lo..hi] == a[lo..] + b[..hi - |a|]
  {
  }

  lemma BurnSlice(cells: seq<bv8>, lo: nat, hi: nat, off: nat, data: seq<bv8>)
    requires off + |data| <= |cells|
    ensures Burn(cells, lo, hi, off, data)[off..off + |data|] == data
  {
  }

  // ----- whole-file mode on values -----

  /** The size that whole-file mode computes in 32 bits. */
  function WholeSize(t: Target): (n: nat)
    requires t.Flash()
    ensures n < TWO32
  {
    Wrap(AlignUp(Sub32(FlashOffset(Wrap(t.start + t.total)), AlignDown(FlashOffset(t.start), SECTOR_SIZE)),
                 SECTOR_SIZE))
  }

  lemma TargetIs(t: Target)
    ensures t.Lo() == AlignDown(FlashOffset(t.start), SECTOR_SIZE)
    ensures t.End() == AlignUp(t.Off() + t.total, SECTOR_SIZE)
    ensures t.Off() == FlashOffset(t.start)
  {
  }

  /**
    The size that whole-file mode computes is that of the cover exactly if the target does not
    end at the end of the window: there the end offset is 0, and the size wraps around.
  */
  lemma WholeRangeExact(t: Target)
    requires t.Fits()
    ensures WholeSize(t) == t.End() - t.Lo() <==> t.Off() + t.total < WINDOW
    ensures t.Off() + t.total == WINDOW ==>
              WholeSize(t) == if t.Lo() == 0 then 0 else TWO32 - t.Lo()
  {
    hide Target.Base, Target.Off, Target.Lo, Target.End, AlignUp, FlashOffset, AlignDown, Wrap;
    TargetIs(t);
    Geometry(t);
    WrapSmall(t.start + t.total);
    OffsetInWindow(t.Base(), t.Off() + t.total);
    if t.Off() + t.total < WINDOW {
      var lo := t.Lo();
      AlignUpShift(lo / SECTOR_SIZE, t.Off() + t.total - lo);
      WrapSmall(t.End() - lo);
    } else {
      AlignedAlready(Sub32(0, t.Lo()));
      WrapSmall(Sub32(0, t.Lo()));
    }
  }

  lemma InWindow(address: nat)
    ensures FlashOffset(address) < WINDOW
  {
  }

  lemma AlignedAlready(n: nat)
    ensures n % SECTOR_SIZE == 0 ==> AlignUp(n, SECTOR_SIZE) == n
  {
  }

  lemma WholeErasable(t: Target, capacity: nat, prohibit: seq<bool>)
    requires t.Fits()
    ensures Erasable(capacity, prohibit, t.Lo(), t.End() - t.Lo()) <==> Writable(t, capacity, prohibit)
  {
    Geometry(t);
    hide Target.Base, Target.Off, Target.Lo, Target.End, Permitted;
  }

  lemma WritePermitted(t: Target, prohibit: seq<bool>)
    requires t.Fits() && Permitted(prohibit, t.Lo(), t.End())
    ensures Permitted(prohibit, t.Off(), t.Off() + t.total)
  {
    Geometry(t);
    PermittedPart(prohibit, t.Lo(), t.End(), t.Off(), t.Off() + t.total);
  }

  class FdlContext {
    const device: Driver
    const crc: Crc32
    const maxPacketLen: nat
    /** The work memory, reused as a ring that is indexed by flash address. */
    const workMem: array<bv8>

    var stage: Stage
    var flashStage: FlashStage
    var totalSize: nat
    var receivedSize: nat
    var startAddress: nat
    var writeAddress: nat
    var eraseAddress: nat
    var dataVerify: bv32
    var flash: Driver?

    /** In whole-file mode, the file as far as it was received. */
    var flashWriteWhole: bool
    var flashMem: seq<bv8>

    /** Device contents and number of commands at START. */
    ghost var original: seq<bv8>
    ghost var logged: nat
    /** The data received since, and what became of it in the ring: they differ after an overrun. */
    ghost var sent: seq<bv8>
    ghost var payload: seq<bv8>

    constructor (device: Driver, crc: Crc32, maxPacketLen: nat)
      requires device.Valid() && maxPacketLen <= WORKMEM_SIZE - (PAGE_SIZE - 1)
      ensures this.device == device && this.crc == crc && this.maxPacketLen == maxPacketLen
      ensures fresh(workMem) && Ready() && stage == StageNone && flashStage == FlashNone
    {
      this.device, this.crc, this.maxPacketLen := device, crc, maxPacketLen;
      workMem := new bv8[WORKMEM_SIZE](_ => 0);
      stage, flashStage := StageNone, FlashNone;
      totalSize, receivedSize, startAddress, writeAddress, eraseAddress := 0, 0, 0, 0, 0;
      dataVerify, flash, flashWriteWhole, flashMem := 0, null, false, [];
    }

    function Goal(): Target
      reads this
    {
      Target(startAddress, totalSize)
    }

    function Current(): Progress
      reads this
    {
      Progress(flashStage, writeAddress, eraseAddress)
    }

    /** Where erasing will end. */
    ghost function Stop(): nat
      requires Goal().Fits() && |device.prohibit| == BLOCKS
      reads this, device
    {
      Limit(Goal(), device.prohibit)
    }

    /** The device holds exactly the erased part and the data programmed so far. */
    ghost predicate OnDevice()
      reads this, device
    {
      var t := Goal();
      && t.start <= writeAddress <= t.start + |payload| && t.Base() <= Current().Erased()
      && device.cells == Burn(original, t.Lo(), Current().Erased() - t.Base(), t.Off(),
                              payload[..writeAddress - t.start])
    }

    /** Every byte was erased at most once, and programmed at most once after that. */
    ghost predicate InOrder()
      requires Goal().start <= writeAddress && Goal().Base() <= Current().Erased()
      reads this, device
    {
      logged <= |device.log| && Tidy(device.log[logged..], Goal().Lo(), Goal().Off(), Erased(), Written())
    }

    /** A progressive download is in progress and received bytes have reached the ring. */
    ghost predicate Running(received: nat)
      reads this, device, workMem
    {
      var t := Goal();
      && device.Valid() && flash == device && workMem.Length == WORKMEM_SIZE && flashStage != FlashNone
      && t.Fits() && t.End() <= device.capacity && Startable(t, device.capacity, device.prohibit)
      && Current().Good(t, Stop(), received) && |payload| == |sent| == received
      && RingHolds(workMem[..], t.start, writeAddress - t.start, received, payload)
      && OnDevice() && InOrder()
      && dataVerify == crc.Update(crc.init, sent)
    }

    /** Device offsets up to which data was programmed, and up to which the device was erased. */
    ghost function Written(): nat
      requires startAddress <= writeAddress
      reads this
    {
      Goal().Off() + (writeAddress - startAddress)
    }

    ghost function Erased(): nat
      requires Goal().Base() <= Current().Erased()
      reads this
    {
      Current().Erased() - Goal().Base()
    }

    /** A poll would move on, given time. */
    ghost predicate CanAdvance(received: nat)
      reads this
    {
      || flashStage in {FlashErase, FlashWrite}
      || (flashStage == FlashWaitData && received - (writeAddress - startAddress) >= PAGE_SIZE
          && writeAddress < eraseAddress)
    }

    /** What a poll takes for granted. */
    ghost predicate Pollable()
      reads this, device
    {
      && device.Valid() && workMem.Length == WORKMEM_SIZE && (flashStage != FlashNone ==> flash == device)
      && writeAddress < TWO32 && eraseAddress < TWO32
    }

    /** The state of the machine after one poll, and the command that the poll issues. */
    ghost function Next(received: nat): Progress
      requires Pollable()
      reads this, device
    {
      Polled(Current(), Goal(), received, device.busy == 0, device.capacity, device.prohibit)
    }

    ghost function Order(received: nat): seq<Command>
      requires Pollable()
      reads this, device
    {
      Issued(Current(), Goal(), received, device.busy == 0, device.capacity, device.prohibit)
    }

    /** One poll has happened. */
    twostate predicate Step(received: nat)
      requires old(Pollable())
      reads this, device, workMem
    {
      && Pollable() && Current() == old(Next(received)) && device.log == old(device.log) + old(Order(received))
      && device.cells == Carried(old(device.cells), old(Order(received)), old(workMem[..]), old(writeAddress))
    }

    /** The WAIT_DATA stage of a poll: program the rest of a page once a whole page of data is there. */
    method PollWaitData(received: nat)
      requires Pollable() && flashStage == FlashWaitData
      modifies this`flashStage, this`writeAddress, device`cells, device`busy, device`log
      ensures Step(received)
    {
      hide Avail, Add32, PageSize, FlashOffset, Program;
      var avail := Avail(Goal(), writeAddress, received);
      if avail < PAGE_SIZE || writeAddress >= eraseAddress {
        return;
      }
      ProgramPage();
    }

    /** A page of data is there: program what it holds up to the end of a device page. */
    method ProgramPage()
      requires Pollable() && flashStage == FlashWaitData
      modifies this`flashStage, this`writeAddress, device`cells, device`busy, device`log
      ensures Pollable()
      ensures var w, n := old(writeAddress), PageSize(old(writeAddress), device.capacity, device.prohibit);
              var cmds := if n < 0 then [] else [Programmed(FlashOffset(w), n)];
              && Current() == Progress(FlashWrite, Add32(w, n), eraseAddress) && device.log == old(device.log) + cmds
              && device.cells == Carried(old(device.cells), cmds, old(workMem[..]), w)
    {
      hide Program, Chunk, FlashOffset, Add32, Wrap;
      var waddress := FlashOffset(writeAddress);
      var pos := writeAddress % WORKMEM_SIZE;
      PageInRing(writeAddress);
      WrapSmall(waddress + PAGE_SIZE);
      var wdata := workMem[pos..Min(pos + PAGE_SIZE, WORKMEM_SIZE)];
      SlicePrefix(workMem[..], pos, Min(pos + PAGE_SIZE, WORKMEM_SIZE), Chunk(waddress, PAGE_SIZE));
      var wsize := flash.WriteNoWait(waddress, wdata, PAGE_SIZE);
      writeAddress := Add32(writeAddress, wsize);
      flashStage := FlashWrite;
    }

    /** The WRITE stage of a poll: wait for more data, erase the next piece, or finish. */
    method PollWrite(received: nat)
      requires Pollable() && flashStage == FlashWrite
      modifies this`flashStage, this`eraseAddress, device`cells, device`busy, device`log
      ensures Step(received)
      ensures old(device.busy) > 0 ==> device.busy < old(device.busy)
    {
      hide Add32, AheadSize, FlashOffset, CodeEnd, EraseRange;
      var done := flash.IsDone();
      if !done {
        return;
      }
      if writeAddress < eraseAddress {
        flashStage := FlashWaitData;
        return;
      }
      EraseAhead();
    }

    /** Everything erased is programmed: erase the next piece, be refused, or finish. */
    method EraseAhead()
      requires Pollable() && flashStage == FlashWrite
      modifies this`flashStage, this`eraseAddress, device`cells, device`busy, device`log
      ensures Pollable()
      ensures var e, t := old(eraseAddress), Goal();
              if FlashOffset(e) >= CodeEnd(t) then
                && Current() == Progress(FlashFinish, writeAddress, e)
                && device.log == old(device.log) && device.cells == old(device.cells)
              else
                var n := AheadSize(e, t, device.capacity, device.prohibit);
                var cmds := if n < 0 then [] else [SpiFlash.Erased(FlashOffset(e), n)];
                && Current() == Progress(FlashErase, writeAddress, Add32(e, n)) && device.log == old(device.log) + cmds
                && device.cells == Carried(old(device.cells), cmds, old(workMem[..]), writeAddress)
    {
      hide EraseRange, Piece, FlashOffset, CodeEnd, Add32, Wrap, AlignUp;
      var faddress := FlashOffset(eraseAddress);
      CodeEndUnfold(Goal());
      var fend := FlashOffset(Wrap(AlignUp(Wrap(startAddress + totalSize), SECTOR_SIZE)));
      if faddress >= fend {
        flashStage := FlashFinish;
        return;
      }
      WrapSmall(fend);
      var esize := flash.EraseNoWait(faddress, fend - faddress);
      eraseAddress := Add32(eraseAddress, esize);
      flashStage := FlashErase;
    }

    /** A poll takes its step, whatever the state; and during a progressive download it keeps the invariant. */
    method FlashPolling(received: nat)
      requires Pollable()
      modifies this`flashStage, this`writeAddress, this`eraseAddress, device`cells, device`busy, device`log
      ensures Step(received)
      ensures old(flashStage) in {FlashErase, FlashWrite} && old(device.busy) > 0 ==>
                device.busy < old(device.busy) && Current() == old(Current()) && device.log == old(device.log)
      ensures old(Running(received)) ==> Running(received) && Progressed(received)
    {
      hide FdlContext.Running, Progressed, Avail, Add32, PageSize, AheadSize, FlashOffset, CodeEnd, Program, EraseRange;
      if flashStage == FlashErase {
        var done := flash.IsDone();
        if done {
          flashStage := FlashWaitData;
        }
      } else if flashStage == FlashWaitData {
        PollWaitData(received);
      } else if flashStage == FlashWrite {
        PollWrite(received);
      }
      if old(Running(received)) {
        StepKeeps(received);
      }
    }

    // ----- polls during a progressive download -----

    /** Nothing but the state machine and the device has changed. */
    twostate predicate Untouched()
      reads this, device, workMem
    {
      && Goal() == old(Goal()) && flash == old(flash) && dataVerify == old(dataVerify)
      && workMem[..] == old(workMem[..])
      && original == old(original) && logged == old(logged) && payload == old(payload) && sent == old(sent)
      && device.prohibit == old(device.prohibit)
    }

    /** The measure of the polling loops: a poll that can advance does. */
    twostate predicate Progressed(received: nat)
      reads this, device
    {
      && writeAddress >= old(writeAddress)
      && (old(CanAdvance(received)) ==>
            || writeAddress > old(writeAddress)
            || (writeAddress == old(writeAddress) && Current().Rank() < old(Current().Rank()))
            || (writeAddress == old(writeAddress) && Current().Rank() == old(Current().Rank())
                && device.busy < old(device.busy)))
    }

    /** A poll keeps the invariant, whatever it does. */
    twostate lemma StepKeeps(received: nat)
      requires old(Running(received)) && old(Pollable()) && Step(received) && Untouched()
      requires old(flashStage) in {FlashErase, FlashWrite} && old(device.busy) > 0 ==> device.busy < old(device.busy)
      ensures Running(received) && Progressed(received)
    {
      hide Progress.Good, RingHolds, Burn, Carried, Tidy, Limit, Startable, Stops, CodeEnd, FlashOffset, Avail;
      hide Target.Base, Target.Off, Target.Lo, Target.End;
      ghost var p := old(Current());
      Bounds(p, Goal(), old(Stop()), received);
      if p.stage == FlashWaitData && Avail(Goal(), p.write, received) >= PAGE_SIZE && p.write < p.erase {
        PageKept(received);
      } else if p.stage == FlashWrite && old(device.busy) == 0 && p.write >= p.erase {
        AheadKept(received);
      } else {
        StageKept(received);
      }
    }

    /** No command was issued: only the stage can have changed. */
    twostate lemma StageKept(received: nat)
      requires old(Running(received)) && old(Pollable()) && Step(received) && Untouched()
      requires old(flashStage) == FlashWaitData ==>
                 old(Avail(Goal(), writeAddress, received) < PAGE_SIZE || writeAddress >= eraseAddress)
      requires old(flashStage) == FlashWrite && old(device.busy) == 0 ==> old(writeAddress < eraseAddress)
      ensures Running(received)
      ensures Current() == if old(flashStage) in {FlashErase, FlashWrite} && old(device.busy) == 0
                           then old(Current()).(stage := FlashWaitData) else old(Current())
    {
      hide Progress.Good, RingHolds, Burn, Tidy, Limit, Startable, Stops, CodeEnd, FlashOffset, Avail;
      hide Target.Base, Target.Off, Target.Lo, Target.End, PageSize, AheadSize, Add32;
      assert old(Order(received)) == [] && device.log == old(device.log);
      Offsets(old(Current()), Goal(), old(Stop()), received);
      if Current() != old(Current()) {
        StageMove(old(Current()), Goal(), old(Stop()), received);
      }
    }

    /** A page was programmed. */
    twostate lemma PageKept(received: nat)
      requires old(Running(received)) && old(Pollable()) && Step(received) && Untouched()
      requires old(flashStage == FlashWaitData && writeAddress < eraseAddress)
      requires received - (old(writeAddress) - startAddress) >= PAGE_SIZE
      ensures Running(received) && writeAddress > old(writeAddress)
    {
      hide Progress.Good, RingHolds, Burn, Program, Tidy, Limit, Startable, Stops, FlashOffset, Chunk, Avail, PageSize;
      hide Target.Base, Target.Off, Target.Lo, Target.End, Add32;
      var t, p, stop, w := Goal(), old(Current()), old(Stop()), old(writeAddress) - startAddress;
      var n := Chunk(FlashOffset(p.write), PAGE_SIZE);
      Offsets(p, t, stop, received);
      Bounds(p, t, stop, received);
      PageStep(p, t, received, device.capacity, device.prohibit);
      ProgramMove(p, t, stop, received, n, workMem[..], payload, original);
      TidyNext(old(device.log), logged, Programmed(FlashOffset(p.write), n), t.Lo(), t.Off(),
               old(Erased()), old(Written()));
    }

    /** The next piece was erased, or refused, or there is none. */
    twostate lemma AheadKept(received: nat)
      requires old(Running(received)) && old(Pollable()) && Step(received) && Untouched()
      requires old(flashStage == FlashWrite && writeAddress >= eraseAddress && device.busy == 0)
      ensures Running(received) && writeAddress == old(writeAddress) && Current().Rank() < old(Current().Rank())
    {
      hide Progress.Good, RingHolds, Burn, EraseRange, Tidy, Limit, Startable, Stops, FlashOffset, CodeEnd, AheadSize;
      hide Target.Base, Target.Off, Target.Lo, Target.End, Add32, Piece;
      var t, p, stop := Goal(), old(Current()), old(Stop());
      Offsets(p, t, stop, received);
      Bounds(p, t, stop, received);
      EraseMove(p, t, stop, received);
      var e := FlashOffset(p.erase);
      if e >= CodeEnd(t) {
        assert device.log == old(device.log) + [] == old(device.log);
      } else {
        AheadStep(p, t, received, device.capacity, device.prohibit);
        var n := AheadSize(p.erase, t, device.capacity, device.prohibit);
        if n < 0 {
          assert device.log == old(device.log) + [] == old(device.log);
        } else {
          BurnErase(original, t.Lo(), e, e + n, t.Off(), payload[..p.write - t.start]);
          TidyNext(old(device.log), logged, SpiFlash.Erased(e, n), t.Lo(), t.Off(), old(Erased()), old(Written()));
        }
      }
    }

    /** The first erase command of START. */
    method FirstErase() returns (esize: int)
      requires Ready() && flash == device && Goal().Flash()
      modifies this`eraseAddress, device`cells, device`busy, device`log
      ensures Ready() && eraseAddress == AlignDown(startAddress, SECTOR_SIZE) == Goal().Base() + Goal().Lo()
      ensures esize > 0 <==> Startable(Goal(), device.capacity, device.prohibit)
      ensures esize > 0 ==>
                var lo := Goal().Lo();
                && esize == Piece(lo, Sub32(CodeEnd(Goal()), lo))
                && device.log == old(device.log) + [SpiFlash.Erased(lo, esize)]
                && (lo + esize <= device.capacity ==> device.cells == EraseRange(old(device.cells), lo, lo + esize))
      ensures esize <= 0 ==> esize < 0 && device.cells == old(device.cells) && device.log == old(device.log)
    {
      hide EraseRange, Piece, AlignUp, AlignDown, FlashOffset, Startable, Wrap;
      hide Target.Base, Target.Off, Target.Lo, Target.End, Target.Flash, CodeEnd, Sub32;
      ghost var t := Goal();
      Geometry(t);
      eraseAddress := AlignDown(startAddress, SECTOR_SIZE);
      StartRequest(t, device.capacity, device.prohibit);
      NoEmptyPiece(t.Lo(), Sub32(CodeEnd(t), t.Lo()));
      var faddress := FlashOffset(eraseAddress);
      CodeEndUnfold(t);
      var fend := FlashOffset(Wrap(AlignUp(Wrap(startAddress + totalSize), SECTOR_SIZE)));
      esize := flash.EraseNoWait(faddress, Sub32(fend, faddress));
    }

    /** START, once the common fields are set. */
    method FlashStart() returns (r: Reply)
      requires Ready() && flash == device && receivedSize == 0 && !flashWriteWhole && Goal().Flash()
      modifies this`flashStage, this`writeAddress, this`eraseAddress, this`dataVerify,
               this`original, this`logged, this`sent, this`payload, device`cells, device`busy, device`log
      ensures Ready() && original == old(device.cells) && payload == sent == [] && logged == |old(device.log)|
      ensures r == if Startable(Goal(), device.capacity, device.prohibit) then Ack else DestError
      ensures r == Ack ==>
                && FirstProgress(Current(), Goal()) && OneErase(old(device.log), device.log, Goal().Lo())
      ensures r == Ack && Goal().End() <= Min(device.capacity, WINDOW) ==> Progressive()
      ensures r != Ack ==> flashStage == FlashNone && device.cells == old(device.cells) && device.log == old(device.log)
    {
      hide EraseRange, Piece, AlignDown, Startable, Progressive, Undisturbed;
      hide Target.Base, Target.Off, Target.Lo, Target.End, Target.Flash, CodeEnd, Sub32, FlashOffset;
      InWindows(Goal());
      original, logged, sent, payload := device.cells, |device.log|, [], [];
      writeAddress := startAddress;
      var esize := FirstErase();
      if esize < 0 {
        flashStage := FlashNone;
        return DestError;
      }
      Begin(esize);
      return Ack;
    }

    /** START, after the first erase command was accepted. */
    method Begin(esize: nat)
      requires Ready() && flash == device && receivedSize == 0 && !flashWriteWhole && Goal().Flash()
      requires Startable(Goal(), device.capacity, device.prohibit) && |original| == device.capacity
      requires writeAddress == startAddress && eraseAddress == Goal().Base() + Goal().Lo() && payload == sent == []
      requires esize > 0 && esize == Piece(Goal().Lo(), Sub32(CodeEnd(Goal()), Goal().Lo()))
      requires logged < |device.log| && device.log == device.log[..logged] + [SpiFlash.Erased(Goal().Lo(), esize)]
      requires var lo := Goal().Lo();
               lo + esize <= device.capacity ==> device.cells == EraseRange(original, lo, lo + esize)
      modifies this`flashStage, this`eraseAddress, this`dataVerify
      ensures Ready() && Current() == Progress(FlashErase, startAddress, old(eraseAddress) + esize)
      ensures Goal().End() <= Min(device.capacity, WINDOW) ==> Progressive()
    {
      hide Progress.Good, Burn, Permitted, EraseRange, Piece, Limit, Startable, FlashOffset;
      hide Target.Base, Target.Off, Target.Lo, Target.End, CodeEnd, Sub32, Tidy, Stops;
      ghost var t := Goal();
      FirstInWindow(t, esize);
      eraseAddress := Add32(eraseAddress, esize);
      flashStage := FlashErase;
      dataVerify := crc.init;
      if t.End() <= Min(device.capacity, WINDOW) {
        Geometry(t);
        StartState(t, device.capacity, device.prohibit, esize, original, device.log[..logged]);
        assert Goal() == t && Current() == Progress(FlashErase, t.start, t.Base() + t.Lo() + esize);
        assert payload[..0] == [] && OnDevice();
      }
    }

    /** The stage of the session changes, and nothing about the download. */
    method SetStage(next: Stage)
      modifies this`stage
      ensures stage == next
      ensures old(Progressive()) ==> Progressive()
      ensures old(Collecting()) ==> Collecting()
      ensures (Undisturbed() <==> old(Undisturbed())) && (Ready() <==> old(Ready()))
    {
      hide Progress.Good, RingHolds, Burn, Tidy, Limit, Startable, Stops, Target.Base, Target.Off, Target.Lo;
      hide Target.End;
      hide Orderly, Quiet;
      stage := next;
    }

    /** Bytes in the ring that are not programmed yet, and room for one more packet of the largest size. */
    ghost predicate Room(received: nat)
      reads this
    {
      startAddress + received <= writeAddress + (WORKMEM_SIZE - maxPacketLen)
    }

    /** The waiting bytes are all in the ring. */
    ghost predicate Waiting()
      reads this
    {
      startAddress <= writeAddress <= startAddress + |payload| <= writeAddress + WORKMEM_SIZE
    }

    /** What a packet makes of the received bytes; those that it overruns are replaced. */
    ghost function WithPacket(data: seq<bv8>): (d: seq<bv8>)
      requires Waiting() && |data| <= WORKMEM_SIZE
      reads this
      ensures |d| == |payload| + |data|
      ensures |payload| + |data| <= writeAddress - startAddress + WORKMEM_SIZE ==> d == payload + data
    {
      Overrun(payload, writeAddress - startAddress, data)
    }

    /** The part of MIDST that takes the packet, whether or not it fits behind the waiting bytes. */
    method TakePacket(data: seq<bv8>)
      requires Running(receivedSize) && Waiting() && receivedSize + |data| <= totalSize && |data| <= WORKMEM_SIZE
      modifies this`dataVerify, this`sent, this`payload, workMem
      ensures Running(receivedSize + |data|) && sent == old(sent) + data && payload == old(WithPacket(data))
      ensures workMem[..] == RingPut(old(workMem[..]), (startAddress + receivedSize) % WORKMEM_SIZE, data)
    {
      hide FdlContext.Running, RingPut, RingHolds, Overrun, Crc32.Update, Crc32.Calc;
      RunningRing(receivedSize);
      dataVerify := crc.Update(dataVerify, data);
      var memPos := (startAddress + receivedSize) % WORKMEM_SIZE;
      RingAppend(workMem[..], startAddress, writeAddress - startAddress, payload, data);
      PutIntoRing(memPos, data);
      payload := WithPacket(data);
      crc.UpdateConcat(crc.init, sent, data);
      sent := sent + data;
      PacketTaken(data);
    }

    /** A packet has come into the ring: what it made of the received bytes is there. */
    twostate lemma PacketTaken(data: seq<bv8>)
      requires old(Running(receivedSize)) && receivedSize + |data| <= totalSize && OnlyPacket()
      requires receivedSize == old(receivedSize) && sent == old(sent) + data && |payload| == |old(payload)| + |data|
      requires startAddress <= writeAddress <= startAddress + |old(payload)|
      requires payload[..writeAddress - startAddress] == old(payload[..writeAddress - startAddress])
      requires dataVerify == crc.Update(crc.init, sent)
      requires RingHolds(workMem[..], startAddress, writeAddress - startAddress, receivedSize + |data|, payload)
      ensures Running(receivedSize + |data|)
    {
      hide Progress.Good, RingHolds, Burn, Crc32.Update, Limit, Startable, Tidy, Stops;
      hide Target.Base, Target.Off, Target.Lo, Target.End, Target.Fits;
      GoodMore(Current(), Goal(), Stop(), receivedSize, receivedSize + |data|);
    }

    /** Only the ring and what is known of the data have changed. */
    twostate predicate OnlyPacket()
      reads this, device
    {
      && device.Valid() && device.cells == old(device.cells) && device.log == old(device.log)
      && device.prohibit == old(device.prohibit) && flash == old(flash)
      && Goal() == old(Goal()) && Current() == old(Current()) && original == old(original) && logged == old(logged)
    }

    lemma RunningRing(received: nat)
      requires Running(received)
      ensures workMem.Length == WORKMEM_SIZE && |payload| == received
      ensures startAddress <= writeAddress <= startAddress + received <= startAddress + totalSize
      ensures RingHolds(workMem[..], startAddress, writeAddress - startAddress, received, payload)
      ensures device.Valid() && dataVerify == crc.Update(crc.init, sent)
    {
      hide Progress.Good, RingHolds, Burn, Tidy, Limit, Startable, Stops, Target.Base, Target.Off, Target.Lo;
      hide Target.End;
      Offsets(Current(), Goal(), Stop(), received);
    }

    lemma RunningFacts(received: nat)
      requires Running(received)
      ensures Pollable() && flashStage != FlashNone && |payload| == |sent| == received
      ensures Goal().Base() + Goal().Off() == startAddress <= writeAddress <= startAddress + received
    {
      hide Progress.Good, RingHolds, Burn, Tidy, Limit, Startable, Stops, Target.Base, Target.Off, Target.Lo;
      hide Target.End;
      Bounds(Current(), Goal(), Stop(), received);
      Offsets(Current(), Goal(), Stop(), received);
    }

    /** The packet counts as received. */
    method CountPacket(size: nat)
      modifies this`receivedSize
      ensures receivedSize == old(receivedSize) + size
      ensures old(Running(receivedSize + size)) ==> Running(receivedSize)
    {
      hide Progress.Good, RingHolds, Burn, Tidy, Limit, Startable, Stops, Target.Base, Target.Off, Target.Lo;
      hide Target.End;
      receivedSize := receivedSize + size;
    }

    /** MIDST, before the received size is updated. */
    method FlashMidst(data: seq<bv8>)
      requires Running(receivedSize) && Waiting() && receivedSize + |data| <= totalSize && |data| <= WORKMEM_SIZE
      requires maxPacketLen <= WORKMEM_SIZE - (PAGE_SIZE - 1)
      requires Drains(receivedSize + |data|)
      modifies this`flashStage, this`writeAddress, this`eraseAddress, this`dataVerify, this`sent, this`payload,
               device`cells, device`busy, device`log, workMem
      ensures Running(receivedSize + |data|) && Room(receivedSize + |data|)
      ensures sent == old(sent) + data && payload == old(WithPacket(data))
      ensures old(Room(receivedSize + |data|)) ==> Current() == old(Current()) && device.log == old(device.log)
    {
      hide FdlContext.Running, Overrun, RingPut, Step, Limit, Startable, FdlContext.Waiting;
      hide Target.Base, Target.Off, Target.Lo, Target.End, Target.Fits;
      ghost var t := Goal();
      TakePacket(data);
      var received := receivedSize + |data|;
      var receivedAddress := startAddress + receivedSize + |data|;
      RunningFacts(received);
      while receivedAddress - writeAddress > WORKMEM_SIZE - maxPacketLen
        invariant Running(received) && Pollable() && sent == old(sent) + data && payload == old(WithPacket(data))
        invariant old(Room(receivedSize + |data|)) ==> Current() == old(Current()) && device.log == old(device.log)
        decreases startAddress + totalSize - writeAddress, Current().Rank(), device.busy
      {
        RunningAdvances(received);
        FlashPolling(received);
        RunningFacts(received);
      }
    }

    /** While a page waits before the limit, a poll can advance. */
    lemma RunningAdvances(received: nat)
      requires Running(received) && startAddress + received >= writeAddress + PAGE_SIZE
      requires Stop() == Goal().End() || writeAddress < Goal().Base() + Stop()
      ensures CanAdvance(received) && received <= totalSize
    {
      hide Progress.Good, RingHolds, Burn, Tidy, Limit, Startable, Stops, Target.Base, Target.Off, Target.Lo;
      hide Target.End;
      Offsets(Current(), Goal(), Stop(), received);
      PageWaiting(Current(), Goal(), Stop(), received);
    }

    /** The loop of MIDST can make room: exactly then it ends. */
    ghost predicate Drains(received: nat)
      requires Goal().Fits() && |device.prohibit| == BLOCKS
      reads this, device
    {
      Stop() == Goal().End() || Goal().Off() + received <= Stop() + (WORKMEM_SIZE - maxPacketLen)
    }

    /** The two copies that put packet data into the ring. */
    method PutIntoRing(memPos: nat, data: seq<bv8>)
      requires workMem.Length == WORKMEM_SIZE && memPos < WORKMEM_SIZE && |data| <= WORKMEM_SIZE
      modifies workMem
      ensures workMem[..] == RingPut(old(workMem[..]), memPos, data)
    {
      ghost var ring := workMem[..];
      var tail := WORKMEM_SIZE - memPos;
      if tail >= |data| {
        forall i | 0 <= i < |data| {
          workMem[memPos + i] := data[i];
        }
      } else {
        forall i | 0 <= i < tail {
          workMem[memPos + i] := data[i];
        }
        forall i | 0 <= i < |data| - tail {
          workMem[i] := data[tail + i];
        }
      }
      hide RingPut;
      forall i | 0 <= i < WORKMEM_SIZE
        ensures workMem[..][i] == RingPut(ring, memPos, data)[i]
      {
        RingPutAt(ring, memPos, data, i);
      }
    }

    /** The loop of END, which leaves less than a page in the ring. */
    method Drain(receivedAddress: nat)
      requires Running(receivedSize) && receivedSize == totalSize && Ends(Goal(), Stop())
      requires receivedAddress == startAddress + receivedSize
      modifies this`flashStage, this`writeAddress, this`eraseAddress, device`cells, device`busy, device`log
      ensures Running(receivedSize) && receivedAddress < writeAddress + PAGE_SIZE
    {
      hide FdlContext.Running, Step, Limit, Startable, Target.Base, Target.Off, Target.Lo, Target.End;
      RunningFacts(receivedSize);
      while writeAddress + PAGE_SIZE <= receivedAddress
        invariant Running(receivedSize) && Pollable()
        decreases startAddress + totalSize - writeAddress, Current().Rank(), device.busy
      {
        RunningAdvances(receivedSize);
        FlashPolling(receivedSize);
        RunningFacts(receivedSize);
      }
    }

    /** END: drain the ring, erase and program the rest, and verify. */
    method FlashEnd(behind: seq<bv8>) returns (r: Reply)
      requires Running(receivedSize) && receivedSize == totalSize && Ends(Goal(), Stop())
      requires |behind| >= PAGE_SIZE - 1
      modifies this`flashStage, this`writeAddress, this`eraseAddress, this`flash, device`cells, device`busy, device`log
      ensures Pollable() && flashStage == FlashNone && flash == null
      ensures var t := Goal();
              && t.Fits() && t.total == |payload| == |sent| && t.Off() + t.total <= device.capacity
              && Outcome(t, crc, device.prohibit, original, sent, payload, behind) == Replies(device.cells, r)
              && (Stop() == t.End() ==>
                    logged <= |device.log| && Tidy(device.log[logged..], t.Lo(), t.Off(), t.End(), t.Off() + t.total))
    {
      hide FdlContext.Running, Outcome, Ends, Limit, Tidy, Leaves, Sent, Kept, Crc32.Calc, FlashOffset;
      hide Target.Base, Target.Off, Target.Lo, Target.End, Target.Fits;
      ghost var t := Goal();
      RunningTarget(receivedSize);
      var receivedAddress := startAddress + receivedSize;
      Drain(receivedAddress);
      RunningFacts(receivedSize);
      label Drained:
      flash.WaitDone();
      WaitKeeps@Drained(receivedSize);
      FlashRest(receivedAddress, behind);
      OutcomeWhenEnds(t, crc, device.prohibit, original, sent, payload, behind);
      var fstart := FlashOffset(startAddress);
      var mapped := flash.MapRead(fstart, totalSize);
      var fverify := crc.Calc(mapped);
      flashStage := FlashNone;
      flash := null;
      r := if fverify != dataVerify then VerifyError else Ack;
    }

    /** Waiting for the device changes nothing else. */
    twostate lemma WaitKeeps(received: nat)
      requires old(Running(received)) && device.Valid() && Untouched() && Current() == old(Current())
      requires device.cells == old(device.cells) && device.log == old(device.log)
      ensures Running(received)
    {
      hide Progress.Good, RingHolds, Burn, Tidy, Limit, Startable, Stops, Target.Base, Target.Off, Target.Lo;
      hide Target.End;
    }

    /** The target of a download is on the device, and the CRC so far is that of what was sent. */
    lemma RunningTarget(received: nat)
      requires Running(received)
      ensures Pollable() && flashStage != FlashNone && |payload| == |sent| == received <= totalSize
      ensures var t := Goal();
              t.Fits() && t.Off() + t.total <= device.capacity && FlashOffset(t.start) == t.Off()
      ensures dataVerify == crc.Calc(sent)
    {
      hide Progress.Good, RingHolds, Burn, Tidy, Limit, Startable, Stops, Target.Base, Target.Off, Target.Lo;
      hide Target.End;
      Bounds(Current(), Goal(), Stop(), received);
      Offsets(Current(), Goal(), Stop(), received);
      Geometry(Goal());
    }

    /** The part of END that writes what is left, less than a page. */
    method FlashRest(receivedAddress: nat, behind: seq<bv8>)
      requires Running(totalSize) && device.busy == 0 && Ends(Goal(), Stop())
      requires receivedAddress == startAddress + totalSize && receivedAddress < writeAddress + PAGE_SIZE
      requires |behind| >= PAGE_SIZE - 1
      modifies this`eraseAddress, device`cells, device`busy, device`log
      ensures Pollable() && device.busy == 0
      ensures var t := Goal();
              && Kept(t, Stop()) <= t.total == |payload|
              && device.cells == Leaves(t, Stop(), original, Sent(t, payload, behind))
              && (Stop() == t.End() ==>
                    logged <= |device.log| && Tidy(device.log[logged..], t.Lo(), t.Off(), t.End(), t.Off() + t.total))
    {
      hide FdlContext.Running, Kept, Sent, Leaves, Ends, Limit, Startable, Tidy, Program, EraseRange;
      hide WriteReach, Writes;
      hide Target.Base, Target.Off, Target.Lo, Target.End, Target.Fits, FlashOffset, Burn;
      RunningTarget(totalSize);
      RestFacts(behind);
      ghost var t, stop, w := Goal(), Stop(), writeAddress - startAddress;
      ghost var sent' := Sent(t, payload, behind);
      var remained := receivedAddress - writeAddress;
      if remained > 0 {
        EraseRest();
        var waddress := FlashOffset(writeAddress);
        var pos := writeAddress % WORKMEM_SIZE;
        ghost var log := device.log;
        var ok := flash.Write(waddress, (workMem[..] + behind)[pos..pos + remained]);
        BurnIs(original, t.Lo(), stop, t.Off(), payload[..w]);
        LeavesAfter(t, stop, original, sent', w, Kept(t, stop) - w);
        TidyAfter(log, device.log, logged, t.Lo(), t.Off(), stop, t.Off() + w, t.Off() + Kept(t, stop));
      }
    }

    /** What the final write reads, and how far it gets; and if there is none, that nothing is missing. */
    lemma RestFacts(behind: seq<bv8>)
      requires Running(totalSize) && Ends(Goal(), Stop()) && startAddress + totalSize < writeAddress + PAGE_SIZE
      requires |behind| >= PAGE_SIZE - 1
      ensures var t, stop, w, pos := Goal(), Stop(), writeAddress - startAddress, writeAddress % WORKMEM_SIZE;
              var n, sent' := startAddress + totalSize - writeAddress, Sent(t, payload, behind);
              && t.Lo() <= t.Off() <= t.Off() + w <= stop && t.Off() + t.total <= t.End()
              && w <= Kept(t, stop) <= t.total == |payload| && (stop == t.End() ==> Kept(t, stop) == t.total)
              && pos + n <= WORKMEM_SIZE + |behind|
              && (workMem[..] + behind)[pos..pos + n] == sent'[w..] && payload[..w] == sent'[..w]
              && w + WriteReach(device.capacity, device.prohibit, t.Off() + w, t.total - w) == Kept(t, stop)
              && (n > 0 ==> FlashOffset(writeAddress) == t.Off() + w && t.Off() + t.total < TWO32)
              && (n == 0 ==> && device.cells == Leaves(t, stop, original, sent') && logged <= |device.log|
                             && stop == t.End()
                             && Tidy(device.log[logged..], t.Lo(), t.Off(), t.End(), t.Off() + t.total))
    {
      hide Progress.Good, RingHolds, Burn, Limit, Startable, Tidy, Stops, Kept, RingFits, Ends, WriteReach;
      hide Program, EraseRange;
      hide Target.Base, Target.Off, Target.Lo, Target.End, FlashOffset, CodeEnd, Sent;
      var t, p, stop, w := Goal(), Current(), Stop(), writeAddress - startAddress;
      Offsets(p, t, stop, totalSize);
      RestToWrite(p, t, device.capacity, device.prohibit);
      RestIsLinear(p, t, stop);
      SentRest(t, workMem[..], behind, w, payload);
      if w < t.total {
        WriteAt(p, t, stop);
      } else {
        NothingLeft(p, t, stop);
        BurnIs(original, t.Lo(), stop, t.Off(), Sent(t, payload, behind)[..w]);
      }
    }

    /** The remaining data may lie in a sector that is not erased yet. */
    method EraseRest()
      requires Running(totalSize) && device.busy == 0
      modifies this`eraseAddress, device`cells, device`busy, device`log
      ensures Pollable() && device.busy == 0 && logged <= |device.log|
      ensures var t := Goal();
              && device.cells == Burn(original, t.Lo(), Stop(), t.Off(), payload[..writeAddress - t.start])
              && Tidy(device.log[logged..], t.Lo(), t.Off(), Stop(), Written())
    {
      hide Progress.Good, RingHolds, Burn, Permitted, Crc32.Update, Limit, Startable, Tidy, Stops, Erases;
      hide Target.Base, Target.Off, Target.Lo, Target.End, EraseReach, EraseRange, AlignUp, FlashOffset, CodeEnd, Wrap;
      ghost var t, p, stop, was, log := Goal(), Current(), Stop(), device.cells, device.log;
      ghost var burnt := payload[..writeAddress - startAddress];
      RunningFacts(totalSize);
      Offsets(p, t, stop, totalSize);
      RestToErase(p, t, device.capacity, device.prohibit);
      ghost var e := Erased();
      var faddress := FlashOffset(eraseAddress);
      CodeEndUnfold(t);
      CodeEndIs(t);
      var fend := FlashOffset(Wrap(AlignUp(Wrap(startAddress + totalSize), SECTOR_SIZE)));
      if faddress < fend {
        ghost var reach := EraseReach(device.capacity, device.prohibit, faddress, fend - faddress);
        BurnErase(original, t.Lo(), e, stop, t.Off(), burnt);
        NothingDone(was, faddress);
        var ok, pieces := flash.Erase(faddress, fend - faddress);
        TidyErased(log, device.log, logged, t.Lo(), t.Off(), e, Written(), faddress, reach);
        // The result is a truth value, but it is added to the address all the same.
        eraseAddress := Add32(eraseAddress, if ok then 1 else 0);
      }
    }

    // ----- whole-file mode -----

    /** The erase and write steps of whole-file mode. */
    method FlashWhole() returns (r: Reply)
      requires device.Valid() && flash == device && Goal().Flash() && |flashMem| == totalSize
      modifies device`cells, device`busy, device`log
      ensures device.Valid() && r in {Ack, VerifyError} && old(device.log) <= device.log
      ensures WholeOutcome(Goal(), device.capacity, device.prohibit, old(device.cells), flashMem,
                           device.cells, device.log[|old(device.log)|..], r)
    {
      hide Burn, Permitted, AlignUp, AlignDown, FlashOffset, EraseReach, WriteReach, Wrap, Sub32, Strays;
      hide Erases, Writes;
      hide Target.Base, Target.Off, Target.Lo, Target.End, EraseRange, Program, Erasable, WholeSize;
      ghost var t, was, log := Goal(), device.cells, device.log;
      TargetIs(t);
      Geometry(t);
      WholeSizeUnfold(t);
      InWindow(Wrap(startAddress + totalSize));
      var endAddr := Wrap(startAddress + totalSize);
      var eraseOffset := AlignDown(FlashOffset(startAddress), SECTOR_SIZE);
      var eraseSize := Wrap(AlignUp(Sub32(FlashOffset(endAddr), eraseOffset), SECTOR_SIZE));
      var writeOffset := FlashOffset(startAddress);
      WholeErase(t, device.capacity, device.prohibit, was);
      var ok, pieces := flash.Erase(eraseOffset, eraseSize);
      if !ok {
        return VerifyError;
      }
      ghost var log' := device.log;
      WholeWrite(t, device.capacity, device.prohibit, was, flashMem);
      ok := flash.Write(writeOffset, flashMem);
      StraysLater(log, log', device.log, device.capacity);
      if !ok {
        return VerifyError;
      }
      return Ack;
    }

    // ----- the download commands -----

    ghost predicate Ready()
      reads this, device
    {
      Pollable() && maxPacketLen <= WORKMEM_SIZE - (PAGE_SIZE - 1)
    }

    /** A progressive download between two commands. */
    ghost predicate Progressive()
      reads this, device, workMem
    {
      flashStage != FlashNone && !flashWriteWhole && Running(receivedSize) && Room(receivedSize)
    }

    /** What an earlier progressive download left behind does nothing any more. */
    ghost predicate Undisturbed()
      reads this, device
    {
      && device.Valid() && receivedSize <= totalSize && Goal().Flash()
      && Orderly(Current(), device.capacity, device.prohibit)
      && Quiet(Current(), Goal(), device.capacity, device.prohibit)
    }

    /** A whole-file download between two commands. */
    ghost predicate Collecting()
      reads this, device
    {
      && flashWriteWhole && flash == device && Undisturbed()
      && |payload| == receivedSize && flashMem == payload == sent && device.cells == original
      && logged == |device.log|
    }

    /** No error was reported since the last successful START. */
    ghost predicate Alive()
      reads this, device, workMem
    {
      && Ready()
      && if stage in {StageStart, StageGather} then Progressive() || Collecting()
         else flashStage == FlashNone || Undisturbed()
    }

    /** START in whole-file mode, once there is memory. */
    method WholeStart()
      requires Ready() && flashWriteWhole && flash == device && receivedSize == 0
      modifies this`flashMem, this`original, this`logged, this`sent, this`payload
      ensures payload == sent == [] && original == device.cells && logged == |device.log|
      ensures Undisturbed() ==> Collecting()
    {
      hide Orderly, Quiet, Target.Flash;
      flashMem := [];
      original, logged, sent, payload := device.cells, |device.log|, [], [];
    }

    /** START, once the fields of the request are set. */
    method StartFlash(memory: bool) returns (r: Reply)
      requires Ready() && flash == device && receivedSize == 0 && Goal().Flash()
      modifies this`flashStage, this`writeAddress, this`eraseAddress, this`dataVerify, this`flashMem,
               this`original, this`logged, this`sent, this`payload, device`cells, device`busy, device`log
      ensures Ready()
      ensures r == if flashWriteWhole then (if memory then Ack else NotEnoughMemory)
                   else if Startable(Goal(), device.capacity, device.prohibit) then Ack
                   else DestError
      ensures r == Ack ==> payload == sent == [] && original == old(device.cells) && logged == |old(device.log)|
      ensures if flashWriteWhole then
                && Current() == old(Current()) && device.cells == old(device.cells) && device.log == old(device.log)
                && (r == Ack && Undisturbed() ==> Collecting())
              else if r == Ack then
                && FirstProgress(Current(), Goal()) && OneErase(old(device.log), device.log, Goal().Lo())
                && (Goal().End() <= Min(device.capacity, WINDOW) ==> Progressive())
              else flashStage == FlashNone && device.cells == old(device.cells)
    {
      hide Progressive, Collecting, Undisturbed, OneErase, FirstProgress, Startable, Target.Lo, Target.End;
      hide Target.Flash;
      if !flashWriteWhole {
        r := FlashStart();
      } else if memory {
        WholeStart();
        return Ack;
      } else {
        return NotEnoughMemory;
      }
    }

    /** Whatever was begun and did not report an error, what it leaves behind is orderly. */
    lemma AliveIsOrderly()
      requires Alive()
      ensures Orderly(Current(), device.capacity, device.prohibit)
    {
      if Progressive() {
        hide Limit, Startable, RingHolds, Burn, Tidy, Progress.Good, Target.Base, Target.Off, Target.Lo, Target.End;
        GoodIsOrderly(Current(), Goal(), receivedSize, device.capacity, device.prohibit);
      }
    }

    /**
      START for a flash address; opens, whole and memory stand for the device driver, the secure
      boot setting and malloc.  In whole-file mode the stage and the addresses of an earlier
      progressive download stay.  What follows is claimed for targets on the device, and in
      whole-file mode if nothing is left to do in that stage.
    */
    method DataStart(start: nat, size: nat, opens: bool, whole: bool, memory: bool) returns (r: Reply)
      requires Ready() && Target(start, size).Flash()
      modifies this, device`cells, device`busy, device`log
      ensures Ready() && Goal() == Target(start, size) && receivedSize == 0
      ensures r == if !opens then OperationFailed
                   else if whole then (if memory then Ack else NotEnoughMemory)
                   else if Startable(Goal(), device.capacity, device.prohibit) then Ack
                   else DestError
      ensures r == Ack ==> stage == StageStart && flashWriteWhole == whole && flash == device
      ensures r == Ack && !whole ==>
                FirstProgress(Current(), Goal()) && OneErase(old(device.log), device.log, Goal().Lo())
      ensures r == Ack && (if whole then Undisturbed() else Goal().End() <= Min(device.capacity, WINDOW)) ==>
                Alive() && payload == sent == [] && original == old(device.cells) && logged == |old(device.log)|
      ensures !opens || whole ==>
                Current() == old(Current()) && device.cells == old(device.cells) && device.log == old(device.log)
      ensures r == DestError ==> flashStage == FlashNone
      ensures r != Ack ==> device.cells == old(device.cells) && stage == old(stage)
    {
      hide Startable, Piece, CodeEnd, Sub32, AlignDown, Driver.Valid, Target.Lo, Target.End, Target.Flash;
      hide Progressive, Collecting, Undisturbed, OneErase, FirstProgress;
      startAddress, totalSize, receivedSize := start, size, 0;
      if !opens {
        return OperationFailed;
      }
      flash := device;
      flashWriteWhole := whole;
      r := StartFlash(memory);
      if r == Ack {
        SetStage(StageStart);
      }
    }

    /** A packet of whole-file mode. */
    method TakeWhole(data: seq<bv8>)
      requires Collecting() && receivedSize + |data| <= totalSize
      modifies this`flashMem, this`receivedSize, this`sent, this`payload
      ensures Collecting() && sent == old(sent) + data && receivedSize == old(receivedSize) + |data|
    {
      hide Orderly, Quiet, Target.Flash;
      flashMem := flashMem + data;
      sent, payload := sent + data, payload + data;
      receivedSize := receivedSize + |data|;
    }

    /** A packet of progressive mode. */
    method TakeProgressive(data: seq<bv8>)
      requires Ready() && Progressive() && receivedSize + |data| <= totalSize && |data| <= WORKMEM_SIZE
      requires Drains(receivedSize + |data|)
      modifies this`flashStage, this`writeAddress, this`eraseAddress, this`dataVerify, this`sent, this`payload,
               this`receivedSize, device`cells, device`busy, device`log, workMem
      ensures Ready() && Progressive() && receivedSize == old(receivedSize) + |data|
      ensures old(Waiting()) && sent == old(sent) + data && payload == old(WithPacket(data))
      ensures old(Room(receivedSize + |data|)) ==> Current() == old(Current()) && device.log == old(device.log)
    {
      hide FdlContext.Running, Overrun, Limit;
      RunningFacts(receivedSize);
      FlashMidst(data);
      CountPacket(|data|);
      RunningFacts(receivedSize);
    }

    /** MIDST with one packet of data; in progressive mode the loop must be able to make room. */
    method DataMidst(data: seq<bv8>) returns (r: Reply)
      requires Alive() && |data| <= WORKMEM_SIZE
      requires Progressive() && receivedSize + |data| <= totalSize ==> Drains(receivedSize + |data|)
      modifies this, device`cells, device`busy, device`log, workMem
      ensures r == if old(stage) !in {StageStart, StageGather} then NotStarted
                   else if old(receivedSize) + |data| > old(totalSize) then SizeError
                   else Ack
      ensures r == Ack ==> Alive() && stage == StageGather && sent == old(sent) + data
                           && receivedSize == old(receivedSize) + |data|
                           && Goal() == old(Goal()) && original == old(original) && logged == old(logged)
                           && flashWriteWhole == old(flashWriteWhole)
      ensures r == Ack && !flashWriteWhole ==> old(Waiting()) && payload == old(WithPacket(data))
      ensures r == Ack && !flashWriteWhole && old(Room(receivedSize + |data|)) ==>
                Current() == old(Current()) && device.log == old(device.log)
      ensures r != Ack ==> flashStage == FlashNone && flash == null && device.cells == old(device.cells)
    {
      hide FdlContext.Running, Overrun, Undisturbed, Limit, FdlContext.Room, FdlContext.Waiting, FdlContext.WithPacket;
      if stage != StageStart && stage != StageGather {
        flashStage, flash := FlashNone, null;
        return NotStarted;
      }
      if receivedSize + |data| > totalSize {
        flashStage, flash := FlashNone, null;
        return SizeError;
      }
      if flashWriteWhole {
        TakeWhole(data);
      } else {
        TakeProgressive(data);
      }
      SetStage(StageGather);
      return Ack;
    }

    /**
      END; behind is what the memory behind the ring holds at the time, and check the answer of
      the check that follows a progressive write.  In progressive mode the loop must be able to end.
    */
    method DataEnd(behind: seq<bv8>, check: Reply) returns (r: Reply)
      requires Alive() && |behind| >= PAGE_SIZE - 1 && check in {Ack, VerifyError, OperationFailed}
      requires Progressive() ==> Ends(Goal(), Stop())
      modifies this, device`cells, device`busy, device`log
      ensures r == NotStarted <==> old(stage) !in {StageStart, StageGather}
      ensures r == SizeError <==> old(stage) in {StageStart, StageGather} && old(receivedSize) != old(totalSize)
      ensures r in {NotStarted, SizeError} ==>
                flashStage == FlashNone && flash == null && device.cells == old(device.cells)
      ensures r in {Ack, VerifyError, OperationFailed, NotStarted, SizeError}
      ensures r == Ack ==> Alive() && stage == StageEnd
      ensures r in {Ack, VerifyError, OperationFailed} ==>
                device.Valid() && Goal() == old(Goal()) && |old(payload)| == |old(sent)| == totalSize
      // progressive mode
      ensures r in {Ack, VerifyError, OperationFailed} && !old(flashWriteWhole) ==>
                var t := Goal();
                && t.Fits() && t.Off() + t.total <= device.capacity
                && var e := Outcome(t, crc, device.prohibit, old(original), old(sent), old(payload), behind);
                   e.Replies? && device.cells == e.cells && r == if e.reply == Ack then check else VerifyError
      ensures r in {Ack, VerifyError, OperationFailed} && !old(flashWriteWhole) && Stop() == Goal().End() ==>
                var t := Goal();
                && old(logged) <= |device.log|
                && Tidy(device.log[old(logged)..], t.Lo(), t.Off(), t.End(), t.Off() + t.total)
      // whole-file mode
      ensures r in {Ack, VerifyError, OperationFailed} && old(flashWriteWhole) ==>
                && Current() == old(Current()) && old(logged) <= |device.log|
                && WholeOutcome(Goal(), device.capacity, device.prohibit, old(original), old(sent),
                                device.cells, device.log[old(logged)..], r)
    {
      hide FdlContext.Running, Limit, Startable, Tidy, Outcome, WholeOutcome, Ends, Orderly, Quiet;
      hide Target.Base, Target.Off, Target.Lo, Target.End;
      if stage != StageStart && stage != StageGather {
        flashStage, flash := FlashNone, null;
        return NotStarted;
      }
      if receivedSize != totalSize {
        flashStage, flash := FlashNone, null;
        return SizeError;
      }
      if flashWriteWhole {
        flashWriteWhole := false;
        r := FlashWhole();
        flashMem := [];
        if r != Ack {
          return;
        }
      } else {
        r := FlashEnd(behind);
        if r != Ack {
          return;
        }
        if check != Ack {
          return check;
        }
      }
      stage := StageEnd;
      return Ack;
    }

    /** Polls that are quiet stay so, and leave the device alone. */
    twostate lemma StepQuiet()
      requires old(Pollable() && Undisturbed()) && Step(receivedSize)
      requires Goal() == old(Goal()) && receivedSize == old(receivedSize) && device.prohibit == old(device.prohibit)
      ensures Undisturbed() && device.cells == old(device.cells) && device.log == old(device.log)
    {
      hide Orderly, Quiet, Polled, Issued, Target.Flash;
      QuietStep(old(Current()), Goal(), Look(receivedSize, old(device.busy) == 0), device.capacity, device.prohibit);
    }

    /** The polling callback of the engine. */
    method Polling()
      requires Pollable()
      modifies this`flashStage, this`writeAddress, this`eraseAddress, device`cells, device`busy, device`log
      ensures Step(receivedSize)
      ensures old(flashStage) in {FlashErase, FlashWrite} && old(device.busy) > 0 ==> device.busy < old(device.busy)
      ensures old(Alive()) ==> Alive()
    {
      hide FdlContext.Running, Undisturbed, Polled, Issued, Carried;
      FlashPolling(receivedSize);
      if old(Undisturbed()) {
        StepQuiet();
      }
    }
  }

  lemma CodeEndUnfold(t: Target)
    ensures CodeEnd(t) == FlashOffset(Wrap(AlignUp(Wrap(t.start + t.total), SECTOR_SIZE)))
  {
  }

  /** The first piece ends in the window. */
  lemma FirstInWindow(t: Target, esize: nat)
    requires t.Flash() && esize > 0 && esize == Piece(t.Lo(), Sub32(CodeEnd(t), t.Lo()))
    ensures t.start < TWO32 && t.Base() + t.Lo() + esize < TWO32
    ensures Add32(t.Base() + t.Lo(), esize) == t.Base() + t.Lo() + esize
  {
    Geometry(t);
    hide Target.Base, Target.Off, Target.Lo, Target.End, CodeEnd, Add32;
    PieceInside(WINDOW, t.Lo(), Sub32(CodeEnd(t), t.Lo()));
    NoOverflow(t, t.Base() + t.Lo(), 0, esize);
  }

  lemma NoEmptyPiece(offset: nat, size: nat)
    ensures Piece(offset, size) >= 0 ==> Piece(offset, size) > 0
  {
  }

  /** The final write starts where the data on the device ends. */
  lemma WriteAt(p: Progress, t: Target, stop: nat)
    requires p.Good(t, stop, t.total) && p.write < t.start + t.total
    ensures FlashOffset(p.write) == t.Off() + (p.write - t.start)
  {
    Geometry(t);
    Offsets(p, t, stop, t.total);
    hide Target.Base, Target.Off, Target.Lo, Target.End, FlashOffset;
    OffsetInWindow(t.Base(), p.write - t.Base());
  }

  /** When everything is programmed, everything is erased as well. */
  lemma NothingLeft(p: Progress, t: Target, stop: nat)
    requires p.Good(t, stop, t.total) && p.write == t.start + t.total
    ensures stop == t.End() && p.Erased() == t.Base() + t.End() && Kept(t, stop) == t.total
  {
    hide Target.Base, Target.Off, Target.Lo, Target.End, AlignUp;
    Offsets(p, t, stop, t.total);
    Geometry(t);
    EndOf(t);
    if stop < t.End() {
      NotAlignedEarlier(t.Off() + t.total, stop);
    } else {
      AtLeastOne(p.erase - t.Base(), t.End());
    }
  }

  lemma LeavesAfter(t: Target, stop: nat, cells: seq<bv8>, sent: seq<bv8>, w: nat, n: nat)
    requires w + n == Kept(t, stop) <= |sent|
    ensures Program(Program(EraseRange(cells, t.Lo(), stop), t.Off(), sent[..w]), t.Off() + w, sent[w..][..n])
         == Leaves(t, stop, cells, sent)
  {
    ProgramSplit(EraseRange(cells, t.Lo(), stop), t.Off(), sent[..w], sent[w..][..n]);
    hide Program, EraseRange;
    assert sent[..w] + sent[w..][..n] == sent[..w + n];
  }

  lemma TidyAfter(log: seq<Command>, log': seq<Command>, logged: nat, lo: nat, off: nat, erased: nat, written: nat,
                  to: nat)
    requires logged <= |log| && log <= log' && Tidy(log[logged..], lo, off, erased, written)
    requires Writes(log'[|log|..], written, to)
    ensures to <= erased ==> Tidy(log'[logged..], lo, off, erased, to)
  {
    hide Tidy, Writes;
    assert log'[logged..] == log[logged..] + log'[|log|..];
    if to <= erased {
      TidyWrites(log[logged..], log'[|log|..], lo, off, erased, written, to);
    }
  }

  lemma TidyErased(log: seq<Command>, log': seq<Command>, logged: nat, lo: nat, off: nat, erased: nat, written: nat,
                   f: nat, reach: nat)
    requires logged <= |log| && log <= log' && Tidy(log[logged..], lo, off, erased, written)
    requires Erases(log'[|log|..], f, f + reach) && written <= erased
    ensures f == erased ==> Tidy(log'[logged..], lo, off, erased + reach, written)
    ensures reach == 0 ==> Tidy(log'[logged..], lo, off, erased, written)
  {
    hide Tidy, Erases;
    assert log'[logged..] == log[logged..] + log'[|log|..];
    if f == erased {
      TidyErases(log[logged..], log'[|log|..], lo, off, erased, written, f + reach);
    }
    ErasesForward(log'[|log|..], f, f + reach);
    if reach == 0 {
      assert log[logged..] + [] == log[logged..];
    }
  }

  /** The erase request of whole-file mode. */
  lemma WholeErase(t: Target, capacity: nat, prohibit: seq<bool>, was: seq<bv8>)
    requires t.Flash() && Shape(capacity, prohibit)
    ensures t.Off() + t.total < WINDOW ==>
              && t.Lo() + WholeSize(t) == t.End() < TWO32
              && (EraseReach(capacity, prohibit, t.Lo(), WholeSize(t)) == WholeSize(t) <==>
                    Writable(t, capacity, prohibit))
              && EraseRange(was, t.Lo(), t.End()) == Burn(was, t.Lo(), t.End(), t.Off(), [])
    ensures t.Off() + t.total == WINDOW ==>
              if t.Lo() == 0 then
                WholeSize(t) == 0 && EraseRange(was, 0, 0) == was && EraseReach(capacity, prohibit, 0, 0) == 0
              else t.Lo() + WholeSize(t) == TWO32
  {
    hide Target.Base, Target.Off, Target.Lo, Target.End, EraseReach, EraseRange, Burn, Erasable, Writable, WholeSize;
    Geometry(t);
    if t.Fits() {
      WholeRangeExact(t);
      EraseReachesAll(capacity, prohibit, t.Lo(), t.End() - t.Lo());
      WholeErasable(t, capacity, prohibit);
      BurnNothing(was, t.Lo(), t.Off());
      BurnErase(was, t.Lo(), t.Lo(), t.End(), t.Off(), []);
      NothingDone(was, 0);
      NothingReached(capacity, prohibit, 0);
    }
  }

  /** Its write request. */
  lemma WholeWrite(t: Target, capacity: nat, prohibit: seq<bool>, was: seq<bv8>, data: seq<bv8>)
    requires t.Flash() && Shape(capacity, prohibit) && |data| == t.total
    ensures t.Off() < TWO32 && data[..|data|] == data
    ensures t.Off() + t.total < WINDOW && Writable(t, capacity, prohibit) ==>
              && WriteReach(capacity, prohibit, t.Off(), t.total) == t.total
              && Program(Burn(was, t.Lo(), t.End(), t.Off(), []), t.Off(), data) == t.Image(was, data)
    ensures t.Off() + t.total > WINDOW ==> WriteReach(capacity, prohibit, t.Off(), t.total) != t.total
  {
    hide Target.Base, Target.Lo, Target.End, WriteReach, Program, Burn, Permitted;
    Geometry(t);
    WriteReachesAll(capacity, prohibit, t.Off(), t.total);
    hide Target.Off;
    if t.Off() + t.total < WINDOW && Writable(t, capacity, prohibit) {
      if t.Lo() < t.End() {
        WritePermitted(t, prohibit);
      }
      BurnProgram(was, t.Lo(), t.End(), t.Off(), [], data);
      assert [] + data == data;
    }
  }

  lemma WholeSizeUnfold(t: Target)
    requires t.Flash()
    ensures WholeSize(t)
         == Wrap(AlignUp(Sub32(FlashOffset(Wrap(t.start + t.total)), AlignDown(FlashOffset(t.start), SECTOR_SIZE)),
                         SECTOR_SIZE))
  {
    hide Wrap, AlignUp, AlignDown, FlashOffset, Sub32;
  }
}
