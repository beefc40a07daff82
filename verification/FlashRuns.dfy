/**
  Whole flash downloads: how they come out, exactly when that is what was asked for, and inputs
  at which it is not.
*/
module FlashRuns {

  import opened SpiFlash
  import opened FlashImage
  import opened FlashProgress
  import opened FlashLeftover
  import opened FlashDownload
  import opened Crc
  import opened Words

  // ----- how a progressive download comes out -----

  /** What END leaves, byte by byte. */
  lemma LeavesMeaning(t: Target, stop: nat, cells: seq<bv8>, sent: seq<bv8>, i: nat)
    requires Stops(t, stop) && |sent| == t.total && i < |cells|
    ensures var c, kept := Leaves(t, stop, cells, sent)[i], t.Off() + Kept(t, stop);
            && t.Lo() <= t.Off() < stop
            && (i < t.Lo() ==> c == cells[i])
            && (t.Lo() <= i < t.Off() || kept <= i < stop ==> c == 0xFF)
            && (t.Off() <= i < kept && i < stop ==> c == sent[i - t.Off()])
            && (t.Off() <= i < kept && i >= stop ==> c == cells[i] & sent[i - t.Off()])
            && (i >= stop && i >= kept ==> c == cells[i])
  {
    hide Target.Base, Target.Off, Target.Lo, Target.End, Kept;
    Geometry(t);
    AtLeastOne(t.Lo(), stop);
    hide Stops;
    var data := sent[..Kept(t, stop)];
    ProgrammedAt(cells, t.Lo(), stop, t.Off(), data, i);
    assert t.Off() <= i < t.Off() + |data| ==> data[i - t.Off()] == sent[i - t.Off()];
  }

  /** A cell after erasing and programming. */
  lemma ProgrammedAt(cells: seq<bv8>, lo: nat, stop: nat, off: nat, data: seq<bv8>, i: nat)
    requires i < |cells|
    ensures var c, erased := Program(EraseRange(cells, lo, stop), off, data)[i], lo <= i < stop;
            if off <= i < off + |data| then c == (if erased then data[i - off] else cells[i] & data[i - off])
            else c == if erased then 0xFF else cells[i]
  {
    EraseAt(cells, lo, stop, i);
    ProgramAt(EraseRange(cells, lo, stop), off, data, i);
    hide EraseRange, Program;
    if off <= i < off + |data| {
      AndWith(data[i - off]);
    }
  }

  lemma EraseAt(cells: seq<bv8>, lo: nat, hi: nat, i: nat)
    requires i < |cells|
    ensures EraseRange(cells, lo, hi)[i] == if lo <= i < hi then 0xFF else cells[i]
  {
  }

  lemma ProgramAt(cells: seq<bv8>, off: nat, data: seq<bv8>, i: nat)
    requires i < |cells|
    ensures Program(cells, off, data)[i] == if off <= i < off + |data| then cells[i] & data[i - off] else cells[i]
  {
  }

  lemma AndWith(b: bv8)
    ensures 0xFF & b == b && 0 & b == 0
  {
  }

  /** With everything erased and the data linear in the ring, END leaves the image. */
  lemma LeavesImage(t: Target, cells: seq<bv8>, payload: seq<bv8>)
    requires t.Fits() && |payload| == t.total && t.Off() + t.total <= |cells|
    ensures Kept(t, t.End()) == t.total
    ensures Leaves(t, t.End(), cells, payload) == t.Image(cells, payload)
    ensures t.Image(cells, payload)[t.Off()..t.Off() + t.total] == payload
  {
    Geometry(t);
    hide Target.Base, Target.Off, Target.Lo, Target.End;
    BurnIs(cells, t.Lo(), t.End(), t.Off(), payload);
    BurnSlice(cells, t.Lo(), t.End(), t.Off(), payload);
    assert payload[..t.total] == payload;
  }

  /** The limit is the end of the cover exactly for these targets. */
  lemma LimitComplete(t: Target, capacity: nat, prohibit: seq<bool>)
    requires t.Fits() && Shape(capacity, prohibit) && Startable(t, capacity, prohibit)
    ensures Limit(t, prohibit) == t.End()
       <==> && Permitted(prohibit, t.Lo(), t.End())
            && (t.End() < WINDOW || t.Lo() + Piece(t.Lo(), SIZE_64K) == WINDOW)
  {
    Geometry(t);
    LimitIs(t, capacity, prohibit);
    hide Target.Base, Target.Off, Target.Lo, Target.End, Startable, Permitted, FirstRefused, Piece;
    if t.End() < WINDOW {
      FirstRefusedEnd(prohibit, t.Lo(), t.End());
    } else {
      FirstPiece(t.Lo());
    }
  }

  /** Zeros stay where the limit was not passed, although the image has ones there. */
  lemma FailsBeyondLimit(t: Target, stop: nat, cells: seq<bv8>, payload: seq<bv8>, sent: seq<bv8>)
    requires Stops(t, stop) && stop < t.End() <= |cells| && |payload| == |sent| == t.total
    requires cells[stop] == 0 && forall k :: 0 <= k < t.total ==> payload[k] == 0xFF
    ensures Leaves(t, stop, cells, sent) != t.Image(cells, payload)
  {
    hide Target.Base, Target.Off, Target.Lo, Target.End, Leaves, Target.Image, Kept;
    LeavesMeaning(t, stop, cells, sent, stop);
    ImageMeaning(t, cells, payload, stop);
    hide Stops;
    if stop < t.Off() + t.total {
      AndWith(sent[stop - t.Off()]);
    }
  }

  /** The byte from behind the ring is on the device, and not the one that was sent. */
  lemma FailsInRing(t: Target, cells: seq<bv8>, payload: seq<bv8>, behind: seq<bv8>)
    requires Stops(t, t.End()) && t.End() <= |cells| && |payload| == t.total && |behind| >= PAGE_SIZE - 1
    requires !RingFits(t) && payload[WORKMEM_SIZE - t.start % WORKMEM_SIZE] != behind[0]
    ensures var tail := WORKMEM_SIZE - t.start % WORKMEM_SIZE;
            t.Off() + tail < |cells| && Leaves(t, t.End(), cells, Sent(t, payload, behind))[t.Off() + tail] == behind[0]
    ensures Leaves(t, t.End(), cells, Sent(t, payload, behind)) != t.Image(cells, payload)
  {
    hide Target.Base, Target.Off, Target.Lo, Target.End, Leaves, Target.Image;
    var tail := WORKMEM_SIZE - t.start % WORKMEM_SIZE;
    Geometry(t);
    LeavesMeaning(t, t.End(), cells, Sent(t, payload, behind), t.Off() + tail);
    ImageMeaning(t, cells, payload, t.Off() + tail);
    assert Sent(t, payload, behind)[tail] == behind[0];
  }

  /** Beyond the limit, or with data from behind the ring, some download does not leave its image. */
  lemma SomeFails(t: Target, crc: Crc32, capacity: nat, prohibit: seq<bool>, behind: seq<bv8>)
    returns (cells: seq<bv8>, payload: seq<bv8>)
    requires t.Fits() && Shape(capacity, prohibit) && Startable(t, capacity, prohibit) && t.End() <= capacity
    requires |behind| >= PAGE_SIZE - 1 && !(Limit(t, prohibit) == t.End() && RingFits(t))
    ensures |cells| == capacity && |payload| == t.total && t.Off() + t.total <= capacity
    ensures Outcome(t, crc, prohibit, cells, payload, payload, behind) != Replies(t.Image(cells, payload), Ack)
  {
    hide Target.Base, Target.Off, Target.Lo, Target.End, Limit, Leaves, Sent, Target.Image, Startable, Stops, Kept;
    LimitIs(t, capacity, prohibit);
    StopInside(t, Limit(t, prohibit));
    cells := seq(capacity, _ => 0);
    if Limit(t, prohibit) < t.End() {
      payload := seq(t.total, _ => 0xFF);
      FailsBeyondLimit(t, Limit(t, prohibit), cells, payload, Sent(t, payload, behind));
    } else {
      payload := seq(t.total, _ => if behind[0] == 0 then 1 else 0);
      FailsInRing(t, cells, payload, behind);
    }
  }

  lemma StopInside(t: Target, stop: nat)
    requires Stops(t, stop)
    ensures stop <= t.End() && t.Off() + t.total <= t.End()
  {
    Geometry(t);
  }

  /**
    A download that START accepted on the device succeeds, whatever the device held and whatever
    is downloaded, if and only if no block of the target is prohibited, the target does not end
    at the end of the window or is erased by one command, and it is not a tiny target that wraps
    around in the ring.
  */
  lemma SucceedsExactly(t: Target, crc: Crc32, capacity: nat, prohibit: seq<bool>, behind: seq<bv8>)
    requires t.Fits() && Shape(capacity, prohibit) && Startable(t, capacity, prohibit) && t.End() <= capacity
    requires |behind| >= PAGE_SIZE - 1
    ensures t.Off() + t.total <= capacity
    ensures (forall cells: seq<bv8>, payload: seq<bv8> :: |cells| == capacity && |payload| == t.total ==>
               Outcome(t, crc, prohibit, cells, payload, payload, behind) == Replies(t.Image(cells, payload), Ack))
       <==> && Permitted(prohibit, t.Lo(), t.End())
            && (t.End() < WINDOW || t.Lo() + Piece(t.Lo(), SIZE_64K) == WINDOW)
            && RingFits(t)
  {
    hide Startable, Permitted, Limit, Piece, Leaves, Target.Image, Outcome;
    hide Target.Base, Target.Off, Target.Lo, Target.End;
    Geometry(t);
    LimitComplete(t, capacity, prohibit);
    if Limit(t, prohibit) == t.End() && RingFits(t) {
      forall cells: seq<bv8>, payload: seq<bv8> | |cells| == capacity && |payload| == t.total
        ensures Outcome(t, crc, prohibit, cells, payload, payload, behind) == Replies(t.Image(cells, payload), Ack)
      {
        LeavesImage(t, cells, payload);
        OutcomeComplete(t, crc, prohibit, cells, payload, behind);
      }
    } else {
      var cells, payload := SomeFails(t, crc, capacity, prohibit, behind);
    }
  }

  lemma OutcomeComplete(t: Target, crc: Crc32, prohibit: seq<bool>, cells: seq<bv8>,
                        payload: seq<bv8>, behind: seq<bv8>)
    requires t.Fits() && |prohibit| == BLOCKS && t.Off() + t.total <= |cells|
    requires |payload| == t.total && |behind| >= PAGE_SIZE - 1
    requires Limit(t, prohibit) == t.End() && RingFits(t)
    ensures Outcome(t, crc, prohibit, cells, payload, payload, behind) == Replies(t.Image(cells, payload), Ack)
  {
    LeavesImage(t, cells, payload);
    hide Limit, Leaves, Target.Image, Crc32.Calc, Target.Off, Target.End, RingFits;
  }

  // ----- whole runs -----

  datatype Event = Packet(data: seq<bv8>) | Poll

  /** The data in all packets of a run. */
  ghost function Data(events: seq<Event>): seq<bv8>
    decreases |events|
  {
    if events == [] then []
    else
      Data(events[..|events| - 1]) + (match events[|events| - 1] case Packet(d) => d case Poll => [])
  }

  lemma {:induction false} DataPrefix(events: seq<Event>, n: nat)
    requires n <= |events|
    ensures |Data(events[..n])| <= |Data(events)|
    decreases |events|
  {
    if n < |events| {
      DataPrefix(events[..|events| - 1], n);
      assert events[..|events| - 1][..n] == events[..n];
    } else {
      assert events[..n] == events;
    }
  }

  /** The packets are not larger than the engine says. */
  ghost predicate Sized(events: seq<Event>, maxPacketLen: nat) {
    forall e :: e in events && e.Packet? ==> |e.data| <= maxPacketLen
  }

  /** Packets and polls in any order, between START and END. */
  method Receive(d: FdlContext, t: Target, whole: bool, events: seq<Event>)
    requires d.Alive() && d.stage == StageStart && d.Goal() == t && d.payload == d.sent == [] && d.receivedSize == 0
    requires d.flashWriteWhole == whole && (!whole ==> t.Fits() && Ends(t, d.Stop()))
    requires |Data(events)| == t.total && Sized(events, d.maxPacketLen)
    modifies d, d.device`cells, d.device`busy, d.device`log, d.workMem
    ensures d.Alive() && d.stage in {StageStart, StageGather} && d.Goal() == t && d.flashWriteWhole == whole
    ensures d.payload == d.sent == Data(events) && d.receivedSize == t.total
    ensures d.original == old(d.original) && d.logged == old(d.logged)
  {
    hide Progress.Good, Burn, Permitted, RingHolds, Limit, Startable, FdlContext.Running, Tidy;
    hide FdlContext.Undisturbed, Overrun;
    hide Target.Base, Target.Off, Target.Lo, Target.End;
    for n := 0 to |events|
      invariant d.Alive() && d.Goal() == t && d.stage in {StageStart, StageGather} && d.flashWriteWhole == whole
      invariant d.payload == d.sent == Data(events[..n]) && d.receivedSize == |d.sent|
      invariant d.original == old(d.original) && d.logged == old(d.logged)
    {
      assert events[..n + 1][..n] == events[..n];
      match events[n]
      case Packet(data) =>
        DataPrefix(events, n + 1);
        assert Data(events[..n + 1]) == Data(events[..n]) + data;
        assert Packet(data) in events;
        var r := d.DataMidst(data);
        assert r == Ack;
      case Poll =>
        d.Polling();
        assert d.Alive();
    }
    assert events[..|events|] == events;
  }

  /**
    A progressive download comes out as `Outcome` says: for every target that START accepts on
    the device and for which END ends, every split of the data into packets, every interleaving
    of packets and polls, and every busy time of the device.  When the limit is the end of the
    target, the commands erase every byte of the cover once, and program every byte once after that.
  */
  method Download(d: FdlContext, t: Target, events: seq<Event>, behind: seq<bv8>, check: Reply) returns (r: Reply)
    requires d.Ready() && t.Fits() && t.End() <= d.device.capacity
    requires Startable(t, d.device.capacity, d.device.prohibit) && Ends(t, Limit(t, d.device.prohibit))
    requires |Data(events)| == t.total && Sized(events, d.maxPacketLen) && |behind| >= PAGE_SIZE - 1
    requires check in {Ack, VerifyError, OperationFailed}
    modifies d, d.device`cells, d.device`busy, d.device`log, d.workMem
    ensures d.device.Valid() && t.Off() + t.total <= d.device.capacity
    ensures var e := Outcome(t, d.crc, d.device.prohibit, old(d.device.cells), Data(events), Data(events), behind);
            e.Replies? && d.device.cells == e.cells && r == if e.reply == Ack then check else VerifyError
    ensures Limit(t, d.device.prohibit) == t.End() ==>
              && |old(d.device.log)| <= |d.device.log|
              && Tidy(d.device.log[|old(d.device.log)|..], t.Lo(), t.Off(), t.End(), t.Off() + t.total)
  {
    hide Limit, Startable, FdlContext.Running, Tidy, Ends, Outcome, FdlContext.Undisturbed;
    hide Target.Base, Target.Off, Target.Lo, Target.End, Target.Fits, Target.Flash;
    FitsIsFlash(t);
    r := d.DataStart(t.start, t.total, true, false, true);
    Receive(d, t, false, events);
    r := d.DataEnd(behind, check);
  }

  lemma FitsIsFlash(t: Target)
    requires t.Fits()
    ensures t.Flash() && t.End() <= WINDOW
  {
    Geometry(t);
  }

  /**
    A whole-file download, likewise; at and behind the end of the window it fails.  What an earlier
    progressive download left behind must have nothing left to do.
  */
  method DownloadWhole(d: FdlContext, t: Target, events: seq<Event>, behind: seq<bv8>) returns (r: Reply)
    requires d.Ready() && t.Flash() && Orderly(d.Current(), d.device.capacity, d.device.prohibit)
    requires Quiet(d.Current(), t, d.device.capacity, d.device.prohibit)
    requires |Data(events)| == t.total && Sized(events, d.maxPacketLen) && |behind| >= PAGE_SIZE - 1
    modifies d, d.device`cells, d.device`busy, d.device`log, d.workMem
    ensures d.device.Valid() && |old(d.device.log)| <= |d.device.log|
    ensures WholeOutcome(t, d.device.capacity, d.device.prohibit, old(d.device.cells), Data(events),
                         d.device.cells, d.device.log[|old(d.device.log)|..], r)
    ensures r == Ack ==> d.Alive()
  {
    hide Limit, Startable, FdlContext.Running, Tidy, Outcome, WholeOutcome, Ends, Orderly, Quiet;
    hide Target.Base, Target.Off, Target.Lo, Target.End, Target.Fits, Target.Flash;
    r := d.DataStart(t.start, t.total, true, true, true);
    assert d.Undisturbed();
    Receive(d, t, true, events);
    r := d.DataEnd(behind, Ack);
  }

  /**
    Progressive and whole-file mode are interchangeable: from equal device contents they leave
    equal device contents, however the data was split up and polled for.
  */
  method ModesAgree(d: FdlContext, e: FdlContext, t: Target, events: seq<Event>, events': seq<Event>, behind: seq<bv8>)
    requires d.Ready() && e.Ready() && Orderly(e.Current(), e.device.capacity, e.device.prohibit)
    requires t.Flash() && Quiet(e.Current(), t, e.device.capacity, e.device.prohibit)
    requires {d, d.device, d.workMem} !! {e, e.device, e.workMem} && d.device.cells == e.device.cells
    requires t.Fits() && t.Off() + t.total < WINDOW && t.End() <= d.device.capacity
    requires Startable(t, d.device.capacity, d.device.prohibit) && RingFits(t)
    requires Limit(t, d.device.prohibit) == t.End() && Permitted(e.device.prohibit, t.Lo(), t.End())
    requires Data(events) == Data(events') && |Data(events)| == t.total && |behind| >= PAGE_SIZE - 1
    requires Sized(events, d.maxPacketLen) && Sized(events', e.maxPacketLen)
    modifies d, d.device`cells, d.device`busy, d.device`log, d.workMem
    modifies e, e.device`cells, e.device`busy, e.device`log, e.workMem
    ensures d.device.cells == e.device.cells
  {
    hide Limit, Startable, Permitted, Outcome, Target.Image, Target.Base, Target.Lo, Target.End, Target.Flash;
    ghost var was := d.device.cells;
    FitsIsFlash(t);
    var r := Download(d, t, events, behind, Ack);
    OutcomeComplete(t, d.crc, d.device.prohibit, was, Data(events), behind);
    r := DownloadWhole(e, t, events', behind);
  }

  // ----- downloads that do not end -----

  /** A packet of any size that is taken when there is room for one of the largest. */
  method Offer(d: FdlContext, data: seq<bv8>)
    requires d.Ready() && d.Running(d.receivedSize)
    modifies d`receivedSize, d`dataVerify, d`sent, d`payload, d.workMem
    ensures d.Running(d.receivedSize)
  {
    hide FdlContext.Running;
    d.RunningFacts(d.receivedSize);
    if |data| <= WORKMEM_SIZE && d.receivedSize + |data| <= d.totalSize
       && d.startAddress + d.receivedSize <= d.writeAddress + (WORKMEM_SIZE - d.maxPacketLen) {
      d.TakePacket(data);
      d.CountPacket(|data|);
    }
  }

  /** A packet or a poll. */
  method AnyStep(d: FdlContext, event: Event)
    requires d.Ready() && d.Running(d.receivedSize)
    modifies d`receivedSize, d`dataVerify, d`sent, d`payload, d`flashStage, d`writeAddress, d`eraseAddress
    modifies d.device`cells, d.device`busy, d.device`log, d.workMem
    ensures d.Ready() && d.Running(d.receivedSize)
  {
    hide FdlContext.Running, Driver.Valid;
    match event
    case Packet(data) => Offer(d, data);
    case Poll => d.FlashPolling(d.receivedSize);
    d.RunningFacts(d.receivedSize);
  }

  /**
    START, and then packets and polls in any order; a packet is taken when the loop of the packet
    before it has made room, and its own loop is among the polls.  Nothing is ever programmed or
    erased beyond the limit.  So if END does not end, the condition of its loop stays true; and
    likewise for the loop of MIDST.
  */
  method RunAny(d: FdlContext, t: Target, events: seq<Event>) returns (r: Reply)
    requires d.Ready() && t.Fits() && t.End() <= d.device.capacity
    requires Startable(t, d.device.capacity, d.device.prohibit)
    modifies d, d.device`cells, d.device`busy, d.device`log, d.workMem
    ensures r == Ack && d.Ready() && d.Running(d.receivedSize) && d.Goal() == t
    ensures !Ends(t, Limit(t, d.device.prohibit)) ==> d.writeAddress + PAGE_SIZE <= d.startAddress + d.totalSize
    ensures !d.Drains(d.receivedSize) ==>
              d.startAddress + d.receivedSize - d.writeAddress > WORKMEM_SIZE - d.maxPacketLen
    ensures forall i :: Limit(t, d.device.prohibit) <= i < d.device.capacity ==>
              d.device.cells[i] == old(d.device.cells)[i]
  {
    hide Progress.Good, Burn, Permitted, RingHolds, Limit, Startable, Tidy, Stops;
    hide Target.Base, Target.Off, Target.Lo, Target.End, Target.Fits, Target.Flash;
    FitsIsFlash(t);
    r := d.DataStart(t.start, t.total, true, false, true);
    ghost var stop := Limit(t, d.device.prohibit);
    for n := 0 to |events|
      invariant d.Ready() && d.Running(d.receivedSize) && d.Goal() == t && d.original == old(d.device.cells)
    {
      AnyStep(d, events[n]);
    }
    Offsets(d.Current(), t, stop, d.receivedSize);
    BurnOutside(d.original, t.Lo(), d.Erased(), t.Off(), d.payload[..d.writeAddress - d.startAddress]);
  }

  lemma BurnOutside(cells: seq<bv8>, lo: nat, hi: nat, off: nat, data: seq<bv8>)
    requires off + |data| <= hi
    ensures forall i :: hi <= i < |cells| ==> Burn(cells, lo, hi, off, data)[i] == cells[i]
  {
  }

  // ----- inputs at which the download fails -----

  ghost predicate Blank(prohibit: seq<bool>) {
    |prohibit| == BLOCKS && forall b :: 0 <= b < BLOCKS ==> !prohibit[b]
  }

  lemma BlankPermitted(prohibit: seq<bool>, lo: nat, hi: nat)
    requires Blank(prohibit) && hi <= WINDOW
    ensures Permitted(prohibit, lo, hi)
  {
  }

  /** The last 128K of the window. */
  const WINDOW_END := Target(0x60FE_0000, 0x2_0000)

  lemma WindowEndFacts(prohibit: seq<bool>)
    requires Blank(prohibit)
    ensures WINDOW_END.Fits() && WINDOW_END.End() == WINDOW && Startable(WINDOW_END, WINDOW, prohibit)
    ensures Limit(WINDOW_END, prohibit) == 0xFF_0000 && !Ends(WINDOW_END, 0xFF_0000)
  {
    assert WINDOW_END.Off() == 0xFE_0000 && WINDOW_END.Lo() == 0xFE_0000;
    assert Piece(0xFE_0000, SIZE_64K) == SIZE_64K;
  }

  /** It is acknowledged, and then END does not end. */
  method ExampleWindowEnd(d: FdlContext, events: seq<Event>) returns (r: Reply)
    requires d.Ready() && d.device.capacity == WINDOW && Blank(d.device.prohibit)
    modifies d, d.device`cells, d.device`busy, d.device`log, d.workMem
    ensures r == Ack && d.Goal() == WINDOW_END && d.writeAddress + PAGE_SIZE <= d.startAddress + d.totalSize
  {
    hide *;
    WindowEndFacts(d.device.prohibit);
    r := RunAny(d, WINDOW_END, events);
  }

  /** Less than a page of this target lies beyond the limit, so END does end. */
  const SHORT_TAIL := Target(0x60FF_E000, 0x1064)

  lemma ShortTailFacts(prohibit: seq<bool>)
    requires Blank(prohibit)
    ensures SHORT_TAIL.Fits() && SHORT_TAIL.End() == WINDOW && Startable(SHORT_TAIL, WINDOW, prohibit)
    ensures Limit(SHORT_TAIL, prohibit) == 0xFF_F000 && Ends(SHORT_TAIL, 0xFF_F000) && Stops(SHORT_TAIL, 0xFF_F000)
    ensures SHORT_TAIL.Off() == 0xFF_E000 == SHORT_TAIL.Lo() && Kept(SHORT_TAIL, 0xFF_F000) == 0x1064
  {
    assert SHORT_TAIL.Off() == 0xFF_E000 && SHORT_TAIL.Lo() == 0xFF_E000;
    assert Piece(0xFF_E000, SIZE_64K) == SIZE_4K;
  }

  /** Where the cells behind the limit were erased before, the data arrives, but the margin is old. */
  lemma ShortTailOutcome(crc: Crc32, prohibit: seq<bool>, cells: seq<bv8>, payload: seq<bv8>, behind: seq<bv8>)
    requires Blank(prohibit) && |cells| == WINDOW && |payload| == 0x1064 && |behind| >= PAGE_SIZE - 1
    requires forall i :: 0xFF_F000 <= i < WINDOW ==> cells[i] == if i < 0xFF_F064 then 0xFF else 0
    ensures SHORT_TAIL.Fits() && SHORT_TAIL.Off() + SHORT_TAIL.total <= WINDOW
    ensures var o := Outcome(SHORT_TAIL, crc, prohibit, cells, payload, payload, behind);
            o.Replies? && o.reply == Ack && o.cells != SHORT_TAIL.Image(cells, payload)
  {
    ShortTailFacts(prohibit);
    hide Target.Base, Target.Off, Target.Lo, Target.End, Target.Fits, Leaves, Target.Image, Limit, Ends, Kept, Stops;
    var t := SHORT_TAIL;
    var left := Leaves(t, 0xFF_F000, cells, payload);
    LeavesMeaning(t, 0xFF_F000, cells, payload, 0xFF_F800);
    ImageMeaning(t, cells, payload, 0xFF_F800);
    forall k | 0 <= k < t.total
      ensures left[t.Off()..t.Off() + t.total][k] == payload[k]
    {
      LeavesMeaning(t, 0xFF_F000, cells, payload, t.Off() + k);
      AndWith(payload[k]);
    }
    assert left[t.Off()..t.Off() + t.total] == payload;
  }

  /** Here END acknowledges although the margin behind the data was not erased. */
  method ExampleShortTail(d: FdlContext, events: seq<Event>, behind: seq<bv8>) returns (r: Reply)
    requires d.Ready() && d.device.capacity == WINDOW && Blank(d.device.prohibit)
    requires |Data(events)| == 0x1064 && Sized(events, d.maxPacketLen) && |behind| >= PAGE_SIZE - 1
    requires forall i :: 0xFF_F000 <= i < WINDOW ==> d.device.cells[i] == if i < 0xFF_F064 then 0xFF else 0
    modifies d, d.device`cells, d.device`busy, d.device`log, d.workMem
    ensures r == Ack && d.device.cells != SHORT_TAIL.Image(old(d.device.cells), Data(events))
  {
    ShortTailFacts(d.device.prohibit);
    ShortTailOutcome(d.crc, d.device.prohibit, d.device.cells, Data(events), behind);
    hide Limit, Target.Base, Target.Off, Target.Lo, Target.End, Target.Image, Target.Fits, Target.Flash, Outcome, Ends,
         Startable, Stops, Kept, Data;
    r := Download(d, SHORT_TAIL, events, behind, Ack);
  }

  /** The second 64K block of this target will be prohibited. */
  const TWO_BLOCKS := Target(0x6000_0000, 0x2_0000)

  lemma TwoBlocksFacts(prohibit: seq<bool>)
    requires |prohibit| == BLOCKS && !prohibit[0] && prohibit[1]
    ensures TWO_BLOCKS.Fits() && TWO_BLOCKS.End() == 0x2_0000 && Startable(TWO_BLOCKS, WINDOW, prohibit)
    ensures Limit(TWO_BLOCKS, prohibit) == 0x1_0000 && !Ends(TWO_BLOCKS, 0x1_0000)
  {
    WindowStartOffsets(TWO_BLOCKS);
    hide Target.Base, Target.Off, Target.Lo, Target.End, Target.Fits, Target.Flash, Limit, Startable, Permitted, Piece;
    EndModulo(0x2_0000);
    StartableMeans(TWO_BLOCKS, WINDOW, prohibit);
    LimitIs(TWO_BLOCKS, WINDOW, prohibit);
    NotPermittedAt(prohibit, 0, 0x1_0000, Limit(TWO_BLOCKS, prohibit));
  }

  /** START acknowledges it, and END does not end. */
  method ExampleProhibited(d: FdlContext, events: seq<Event>) returns (r: Reply)
    requires d.Ready() && d.device.capacity == WINDOW && !d.device.prohibit[0] && d.device.prohibit[1]
    modifies d, d.device`cells, d.device`busy, d.device`log, d.workMem
    ensures r == Ack && d.Goal() == TWO_BLOCKS && d.writeAddress + PAGE_SIZE <= d.startAddress + d.totalSize
  {
    TwoBlocksFacts(d.device.prohibit);
    hide *;
    r := RunAny(d, TWO_BLOCKS, events);
  }

  /** A tiny target that wraps around in the ring. */
  const TINY := Target(0x6001_FFFF, 100)

  lemma TinyFacts(prohibit: seq<bool>)
    requires Blank(prohibit)
    ensures TINY.Fits() && TINY.End() == 0x2_1000 && TINY.Off() == 0x1_FFFF && Startable(TINY, WINDOW, prohibit)
    ensures Limit(TINY, prohibit) == 0x2_1000 && !RingFits(TINY) && TINY.start % WORKMEM_SIZE == WORKMEM_SIZE - 1
  {
    assert TINY.Lo() == 0x1_F000;
    hide FirstRefused;
    FirstRefusedEnd(prohibit, 0x1_F000, 0x2_1000);
  }

  lemma TinySent(payload: seq<bv8>, behind: seq<bv8>)
    requires |payload| == 100 && |behind| >= PAGE_SIZE - 1
    ensures Sent(TINY, payload, behind) == payload[..1] + behind[..99]
  {
  }

  /** All its bytes but the first come from behind the ring. */
  method ExampleRing(d: FdlContext, events: seq<Event>, behind: seq<bv8>) returns (r: Reply)
    requires d.Ready() && d.device.capacity == WINDOW && Blank(d.device.prohibit)
    requires |Data(events)| == 100 && Sized(events, d.maxPacketLen) && |behind| >= PAGE_SIZE - 1
    requires Data(events)[1] != behind[0]
    modifies d, d.device`cells, d.device`busy, d.device`log, d.workMem
    ensures |d.device.cells| == WINDOW && d.device.cells[0x1_FFFF..0x2_0063] == Data(events)[..1] + behind[..99]
    ensures d.device.cells != TINY.Image(old(d.device.cells), Data(events))
  {
    TinyFacts(d.device.prohibit);
    LimitIs(TINY, WINDOW, d.device.prohibit);
    hide Limit, Target.Base, Target.Off, Target.Lo, Target.End, Leaves, Target.Image, Target.Fits, Target.Flash, Sent,
         Startable, Stops, RingFits, Data, Permitted;
    FailsInRing(TINY, d.device.cells, Data(events), behind);
    TinySent(Data(events), behind);
    LeavesImage(TINY, d.device.cells, Sent(TINY, Data(events), behind));
    r := Download(d, TINY, events, behind, Ack);
  }

  lemma WindowEndAccepted(prohibit: seq<bool>)
    requires Blank(prohibit)
    ensures WINDOW_END.Flash() && WINDOW_END.Lo() == 0xFE_0000 && Startable(WINDOW_END, 0x80_0000, prohibit)
  {
    assert WINDOW_END.Off() == 0xFE_0000 && WINDOW_END.Lo() == 0xFE_0000 && WINDOW_END.End() == WINDOW;
  }

  /** On an 8M device, START acknowledges the end of the window, and erases at an offset beyond the device. */
  method ExampleOutside(d: FdlContext) returns (r: Reply)
    requires d.Ready() && d.device.capacity == 0x80_0000 && Blank(d.device.prohibit)
    modifies d, d.device`cells, d.device`busy, d.device`log
    ensures r == Ack && old(d.device.log) < d.device.log
    ensures Strays(d.device.log[|old(d.device.log)|..], d.device.capacity)
  {
    WindowEndAccepted(d.device.prohibit);
    hide Target.Base, Target.Off, Target.End, Target.Lo, Target.Flash, Startable;
    r := d.DataStart(WINDOW_END.start, WINDOW_END.total, true, false, true);
    ghost var issued := d.device.log[|old(d.device.log)|..];
    assert issued[0].offset + issued[0].size > d.device.capacity;
  }

  /** A target that runs past the window: START acknowledges it. */
  method ExamplePastWindow(d: FdlContext) returns (r: Reply)
    requires d.Ready() && d.device.capacity == WINDOW && Blank(d.device.prohibit)
    modifies d, d.device`cells, d.device`busy, d.device`log
    ensures r == Ack && !d.Goal().Fits() && d.Goal().End() > d.device.capacity
  {
    var t := Target(0x60FF_0000, 0x2_0000);
    assert t.Off() == 0xFF_0000 && t.Lo() == 0xFF_0000 && t.End() == 0x101_0000;
    r := d.DataStart(t.start, t.total, true, false, true);
  }

  /** An empty target that is not aligned: START acknowledges it, and erases the sector around it. */
  method ExampleEmpty(d: FdlContext) returns (r: Reply)
    requires d.Ready() && d.device.capacity == WINDOW && Blank(d.device.prohibit)
    modifies d, d.device`cells, d.device`busy, d.device`log
    ensures r == Ack && d.totalSize == 0 && old(d.device.log) < d.device.log
  {
    var t := Target(0x6000_0100, 0);
    assert t.Off() == 0x100 && t.Lo() == 0 && t.End() == 0x1000;
    r := d.DataStart(t.start, t.total, true, false, true);
  }

  /** Whole-file mode at the end of the window: acknowledged only after leaving the device. */
  method ExampleWhole(d: FdlContext, events: seq<Event>, behind: seq<bv8>) returns (r: Reply)
    requires d.Ready() && d.flashStage == FlashNone && d.device.capacity == WINDOW
    requires |Data(events)| == 0x1_0000 && Sized(events, d.maxPacketLen) && |behind| >= PAGE_SIZE - 1
    modifies d, d.device`cells, d.device`busy, d.device`log, d.workMem
    ensures r in {Ack, VerifyError} && |old(d.device.log)| <= |d.device.log|
    ensures r == Ack ==> Strays(d.device.log[|old(d.device.log)|..], d.device.capacity)
  {
    var t := Target(0x60FF_0000, 0x1_0000);
    assert t.Off() == 0xFF_0000 && t.Lo() == 0xFF_0000;
    hide Target.Lo, Target.Off, Target.End, Target.Base;
    r := DownloadWhole(d, t, events, behind);
  }

  // ----- a progressive download that is not ended -----

  const LEFT := Target(0x6000_0000, 0x1_0000)
  const NEXT := Target(0x6010_0000, 0x1000)

  /** A target of whole sectors at the start of the window. */
  lemma WindowStart(t: Target, prohibit: seq<bool>)
    requires Blank(prohibit) && t.start == 0x6000_0000 && 0 < t.total < WINDOW && t.total % SECTOR_SIZE == 0
    ensures t.Flash() && t.Fits() && t.Off() == t.Lo() == 0 && t.End() == t.total && t.Base() == t.start
    ensures Startable(t, WINDOW, prohibit) && Limit(t, prohibit) == t.End() && CodeEnd(t) == t.total
  {
    WindowStartOffsets(t);
    hide Target.Base, Target.Off, Target.Lo, Target.End, Target.Fits, Target.Flash, Limit, Permitted, Piece, CodeEnd;
    CodeEndIs(t);
    EndModulo(t.End());
    StartableMeans(t, WINDOW, prohibit);
    BlankPermitted(prohibit, 0, t.total);
    hide Startable;
    LimitComplete(t, WINDOW, prohibit);
  }

  lemma WindowStartOffsets(t: Target)
    requires t.start == 0x6000_0000 && 0 < t.total < WINDOW && t.total % SECTOR_SIZE == 0
    ensures t.Flash() && t.Fits() && t.Off() == t.Lo() == 0 && t.End() == t.total && t.Base() == t.start
  {
    AlignedAlready(t.total);
    hide AlignUp;
    assert t.Off() == 0 && t.Lo() == 0;
  }

  lemma LeftFacts(prohibit: seq<bool>)
    requires Blank(prohibit)
    ensures LEFT.Flash() && LEFT.Fits()
    ensures LEFT.Off() == LEFT.Lo() == 0 && LEFT.End() == 0x1_0000 && LEFT.Base() == 0x6000_0000
    ensures Startable(LEFT, WINDOW, prohibit) && Piece(0, Sub32(CodeEnd(LEFT), 0)) == 0x1_0000
  {
    WindowStart(LEFT, prohibit);
    hide Target.Base, Target.Off, Target.Lo, Target.End, Target.Fits, Limit, Startable, CodeEnd;
  }

  lemma NextFacts()
    ensures NEXT.Flash() && NEXT.Lo() == 0x10_0000
  {
    assert NEXT.Off() == 0x10_0000;
  }

  /** The page of the old download at which polls look. */
  lemma LeftPage(prohibit: seq<bool>)
    requires Blank(prohibit)
    ensures PageSize(0x6000_0000, WINDOW, prohibit) == PAGE_SIZE && FlashOffset(0x6000_0000) == 0
    ensures 0x6000_0000 % WORKMEM_SIZE == 0 && Avail(NEXT, 0x6000_0000, 0) >= PAGE_SIZE
  {
    NoOverflow(NEXT, 0x6000_0000, 0, 0);
  }

  /** Before anything of the new file is received, a page for the old one seems to be available. */
  lemma LeftPolls(idle: bool, prohibit: seq<bool>, ring: seq<bv8>, cells: seq<bv8>)
    requires Blank(prohibit) && |ring| == WORKMEM_SIZE && |cells| == WINDOW
    ensures var p := Progress(FlashErase, 0x6000_0000, 0x6001_0000);
            && Polled(p, NEXT, 0, idle, WINDOW, prohibit) == (if idle then p.(stage := FlashWaitData) else p)
            && Carried(cells, Issued(p, NEXT, 0, idle, WINDOW, prohibit), ring, p.write) == cells
    ensures var p := Progress(FlashWaitData, 0x6000_0000, 0x6001_0000);
            var after := Carried(cells, Issued(p, NEXT, 0, idle, WINDOW, prohibit), ring, p.write);
            after == Program(cells, 0, ring[..PAGE_SIZE])
  {
    hide Avail, Add32, PageSize, Program, FlashOffset, CodeEnd, AheadSize;
    LeftPage(prohibit);
  }

  /** START of the old download. */
  method StartLeft(d: FdlContext) returns (r: Reply)
    requires d.Ready() && d.device.capacity == WINDOW && Blank(d.device.prohibit)
    modifies d, d.device`cells, d.device`busy, d.device`log
    ensures r == Ack && d.Ready() && d.Current() == Progress(FlashErase, 0x6000_0000, 0x6001_0000)
    ensures |d.device.cells| == WINDOW && d.device.cells[0] == 0xFF
  {
    hide Target.Base, Target.Off, Target.Lo, Target.End, Target.Fits, Target.Flash, Startable, Piece, CodeEnd, Sub32;
    hide FdlContext.Running, FdlContext.Undisturbed, OneErase;
    LeftFacts(d.device.prohibit);
    r := d.DataStart(LEFT.start, LEFT.total, true, false, true);
    LeftErased(d);
  }

  lemma LeftErased(d: FdlContext)
    requires d.Running(0) && d.Goal() == LEFT && d.Current() == Progress(FlashErase, 0x6000_0000, 0x6001_0000)
    requires Blank(d.device.prohibit)
    ensures |d.device.cells| > 0 ==> d.device.cells[0] == 0xFF
  {
    hide Target.Base, Target.Off, Target.Lo, Target.End, Target.Fits, Target.Flash, Startable, Burn;
    hide Progress.Good, RingHolds, Tidy, Limit;
    LeftFacts(d.device.prohibit);
    LeftCells(d.device.cells, d.original);
  }

  lemma LeftCells(cells: seq<bv8>, original: seq<bv8>)
    ensures cells == Burn(original, 0, 0x1_0000, 0, []) && |cells| > 0 ==> cells[0] == 0xFF
  {
  }

  /** Its stage goes on for the new target. */
  method PollLeft(d: FdlContext)
    requires d.Pollable() && d.Goal() == NEXT && d.receivedSize == 0
    requires Blank(d.device.prohibit) && d.device.capacity == WINDOW
    requires d.Current() == Progress(FlashErase, 0x6000_0000, 0x6001_0000)
    modifies d`flashStage, d`writeAddress, d`eraseAddress, d.device`cells, d.device`busy, d.device`log
    ensures d.Pollable() && d.device.cells == Program(old(d.device.cells), 0, d.workMem[..PAGE_SIZE])
  {
    hide Polled, Issued, Carried, Program, FdlContext.Alive;
    while d.flashStage == FlashErase
      invariant d.Pollable() && d.Goal() == NEXT && d.device.cells == old(d.device.cells)
      invariant d.flashStage in {FlashErase, FlashWaitData}
      invariant d.Current() == Progress(d.flashStage, 0x6000_0000, 0x6001_0000)
      decreases d.flashStage == FlashErase, d.device.busy
    {
      LeftPolls(d.device.busy == 0, d.device.prohibit, d.workMem[..], d.device.cells);
      d.Polling();
    }
    LeftPolls(d.device.busy == 0, d.device.prohibit, d.workMem[..], d.device.cells);
    d.Polling();
    assert d.workMem[..][..PAGE_SIZE] == d.workMem[..PAGE_SIZE];
  }

  /**
    START progressively, and then START in whole-file mode for another target: the next polls
    program what the ring happens to hold, far from the new target.
  */
  method ExampleLeftover(d: FdlContext) returns (first: Reply, second: Reply, was: seq<bv8>)
    requires d.Ready() && d.device.capacity == WINDOW && Blank(d.device.prohibit) && d.workMem[0] != 0xFF
    modifies d, d.device`cells, d.device`busy, d.device`log
    ensures first == second == Ack && d.Goal() == NEXT && NEXT.Lo() > 0
    ensures |was| == |d.device.cells| == WINDOW && was[0] == 0xFF != d.device.cells[0]
  {
    hide Target.Lo, Target.End, Target.Off, Target.Base, Target.Flash, Target.Fits, FdlContext.Alive, Startable;
    hide FirstProgress, OneErase, Program, FdlContext.Undisturbed, FdlContext.Ready;
    NextFacts();
    first := StartLeft(d);
    second := d.DataStart(NEXT.start, NEXT.total, true, true, true);
    was := d.device.cells;
    ReadyPolls(d);
    PollLeft(d);
    ProgramAt(was, 0, d.workMem[..PAGE_SIZE], 0);
    AndWith(d.workMem[0]);
  }

  lemma ReadyPolls(d: FdlContext)
    requires d.Ready()
    ensures d.Pollable()
  {
  }

  // ----- a packet above the maximum length -----

  const LONG := Target(0x6000_0000, 0x4_0000)

  lemma LongFacts(prohibit: seq<bool>)
    requires Blank(prohibit)
    ensures LONG.Flash() && LONG.Fits()
    ensures LONG.Off() == LONG.Lo() == 0 && LONG.End() == 0x4_0000 && LONG.Base() == 0x6000_0000
    ensures Startable(LONG, WINDOW, prohibit) && Limit(LONG, prohibit) == 0x4_0000
  {
    WindowStart(LONG, prohibit);
    hide *;
  }

  /** A download to that target has received data, and nothing is programmed yet. */
  ghost predicate Filled(d: FdlContext, data: seq<bv8>)
    reads d, d.device, d.workMem
  {
    && d.Alive() && d.Goal() == LONG && d.stage in {StageStart, StageGather} && !d.flashWriteWhole
    && d.receivedSize == |data| && d.sent == d.payload == data && d.writeAddress == LONG.start
    && d.maxPacketLen == 0x3000 && d.device.capacity == WINDOW && Blank(d.device.prohibit)
  }

  lemma FillFits(d: FdlContext, data: seq<bv8>, packet: seq<bv8>)
    requires Filled(d, data) && |data| + |packet| <= 0x1_D000
    ensures d.Goal().Fits() && |d.device.prohibit| == BLOCKS && d.Drains(d.receivedSize + |packet|)
    ensures d.Waiting() && d.Room(d.receivedSize + |packet|) && d.WithPacket(packet) == data + packet
  {
    LongFacts(d.device.prohibit);
    hide FdlContext.Running, FdlContext.Undisturbed, Limit, Target.Fits, Target.End, Overrun;
  }

  /** A packet that leaves room for one more. */
  method FillMore(d: FdlContext, data: seq<bv8>, packet: seq<bv8>)
    requires Filled(d, data) && |data| + |packet| <= 0x1_D000
    modifies d, d.device`cells, d.device`busy, d.device`log, d.workMem
    ensures Filled(d, data + packet)
  {
    FillFits(d, data, packet);
    hide FdlContext.Running, FdlContext.Undisturbed, Limit, Target.Fits, Target.End, Overrun;
    hide FdlContext.Drains, FdlContext.Waiting, FdlContext.WithPacket, FdlContext.Room, Blank;
    var r := d.DataMidst(packet);
  }

  lemma SliceStep(data: seq<bv8>, a: nat, b: nat)
    requires a <= b <= |data|
    ensures data[..a] + data[a..b] == data[..b]
  {
  }

  /** Nothing is programmed while there is room for one more packet. */
  method FillRing(d: FdlContext, data: seq<bv8>)
    requires Filled(d, []) && |data| == 0x1_D000
    modifies d, d.device`cells, d.device`busy, d.device`log, d.workMem
    ensures Filled(d, data)
  {
    hide Filled;
    for n := 0 to 29
      invariant Filled(d, data[..n * 0x1000])
    {
      FillMore(d, data[..n * 0x1000], data[n * 0x1000..(n + 1) * 0x1000]);
      SliceStep(data, n * 0x1000, (n + 1) * 0x1000);
    }
    assert data[..|data|] == data;
  }

  /** What the device holds of the received bytes. */
  lemma OnDeviceAt(d: FdlContext, k: nat)
    requires d.Running(d.receivedSize) && d.Goal() == LONG && d.startAddress + k < d.writeAddress
    ensures k < |d.payload| && (k < |d.device.cells| ==> d.device.cells[k] == d.payload[k])
  {
    hide Progress.Good, RingHolds, Tidy, Limit, Startable, Stops;
    Offsets(d.Current(), LONG, d.Stop(), d.receivedSize);
    assert LONG.Off() == 0;
  }

  /** The packet that comes next. */
  method TakeOverrun(d: FdlContext, data: seq<bv8>, packet: seq<bv8>) returns (r: Reply)
    requires Filled(d, data) && |data| == 0x1_D000 && |packet| == 0x301A
    modifies d, d.device`cells, d.device`busy, d.device`log, d.workMem
    ensures r == Ack && d.Alive() && d.Goal() == LONG && d.sent == data + packet
    ensures d.Progressive() && d.receivedSize == 0x2_001A && d.maxPacketLen == 0x3000
    ensures d.payload == Overrun(data, 0, packet)
  {
    LongFacts(d.device.prohibit);
    hide FdlContext.Running, FdlContext.Undisturbed, Limit, Target.Fits, Target.End, Overrun;
    r := d.DataMidst(packet);
  }

  lemma OverrunEnd(data: seq<bv8>, packet: seq<bv8>)
    requires |data| == 0x1_D000 && |packet| == 0x301A
    ensures Overrun(data, 0, packet)[..0x1A] == packet[0x3000..]
  {
  }

  /** So much was received that its first bytes are on the device. */
  lemma OverrunOnDevice(d: FdlContext)
    requires d.Progressive() && d.Goal() == LONG && d.receivedSize == 0x2_001A && d.maxPacketLen == 0x3000
    requires |d.device.cells| == WINDOW && |d.payload| >= 0x1A
    ensures d.device.cells[..0x1A] == d.payload[..0x1A]
  {
    hide FdlContext.Running;
    forall k | 0 <= k < 0x1A
      ensures d.device.cells[..0x1A][k] == d.payload[..0x1A][k]
    {
      OnDeviceAt(d, k);
    }
  }

  /**
    A packet 26 bytes above the maximum length, as the framing admits it, when there is just room
    for one of the maximum length: it replaces the oldest 26 bytes, and they go to the device.
  */
  method ExampleOverrun(d: FdlContext, data: seq<bv8>, packet: seq<bv8>) returns (r: Reply)
    requires d.Ready() && d.device.capacity == WINDOW && Blank(d.device.prohibit) && d.maxPacketLen == 0x3000
    requires |data| == 0x1_D000 && |packet| == 0x301A
    modifies d, d.device`cells, d.device`busy, d.device`log, d.workMem
    ensures r == Ack && d.sent == data + packet && |d.device.cells| == WINDOW
    ensures d.device.cells[..0x1A] == packet[0x3000..]
  {
    LongFacts(d.device.prohibit);
    hide Target.Lo, Target.End, Target.Off, Target.Base, Target.Flash, Target.Fits, Startable, OneErase, Overrun;
    hide FdlContext.Running, FdlContext.Undisturbed;
    StartLong(d);
    FillRing(d, data);
    r := TakeOverrun(d, data, packet);
    OverrunEnd(data, packet);
    OverrunOnDevice(d);
  }

  method StartLong(d: FdlContext)
    requires d.Ready() && d.device.capacity == WINDOW && Blank(d.device.prohibit) && d.maxPacketLen == 0x3000
    modifies d, d.device`cells, d.device`busy, d.device`log
    ensures Filled(d, [])
  {
    hide Target.Lo, Target.End, Target.Off, Target.Base, Target.Flash, Target.Fits, Startable, OneErase;
    hide FdlContext.Alive;
    LongFacts(d.device.prohibit);
    var r := d.DataStart(LONG.start, LONG.total, true, false, true);
  }
}
