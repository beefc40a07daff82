/**
  A progressive download that was not ended, in boot_fdl_dnld.c.  START in whole-file mode leaves
  its stage and its addresses alone, and polls go on with them: for the new target, and for the
  size received of the new file.
*/
module FlashLeftover {

  import opened SpiFlash
  import opened FlashImage
  import opened FlashProgress
  import opened Words

  // ----- runs of polls -----

  /** A poll, with the size received so far; idle tells whether the last command is finished. */
  datatype Look = Look(received: nat, idle: bool)

  /** All commands that a run of polls issues. */
  ghost function Commands(p: Progress, t: Target, looks: seq<Look>, capacity: nat, prohibit: seq<bool>): seq<Command>
    requires p.write < TWO32 && p.erase < TWO32 && Shape(capacity, prohibit)
    decreases |looks|
  {
    if looks == [] then []
    else
      Issued(p, t, looks[0].received, looks[0].idle, capacity, prohibit)
      + Commands(Polled(p, t, looks[0].received, looks[0].idle, capacity, prohibit), t, looks[1..], capacity, prohibit)
  }

  /** The received size only grows, up to that of the file. */
  ghost predicate Rising(looks: seq<Look>, total: nat) {
    && (forall i :: 0 <= i < |looks| ==> looks[i].received <= total)
    && (forall i, j :: 0 <= i < j < |looks| ==> looks[i].received <= looks[j].received)
  }

  // ----- when polls leave the device alone -----

  /** An address in one of the flash windows, or between them. */
  predicate InFlash(a: nat) {
    0x6000_0000 <= a <= 0x7100_0000
  }

  /** What progressive downloads leave behind: where data would be programmed next is allowed. */
  ghost predicate Orderly(p: Progress, capacity: nat, prohibit: seq<bool>)
    requires Shape(capacity, prohibit)
  {
    && p.write < TWO32 && p.erase < TWO32 && (p.stage == FlashWrite ==> 0 < p.erase)
    && (p.stage in {FlashErase, FlashWrite, FlashWaitData} ==>
          && InFlash(p.write)
          && (p.write < p.erase ==> FlashOffset(p.write) < capacity && !prohibit[FlashOffset(p.write) / SIZE_64K]))
  }

  /** The new file ends before a page can be made up of it. */
  predicate Short(t: Target, write: nat) {
    t.start + t.total < write + PAGE_SIZE
  }

  /**
    Nothing more will be erased or programmed.  That depends on the stage, the two addresses, the
    new target and the bitmap only.
  */
  ghost predicate Quiet(p: Progress, t: Target, capacity: nat, prohibit: seq<bool>)
    requires Shape(capacity, prohibit)
  {
    match p.stage
    case FlashNone => true
    case FlashFinish => true
    case FlashErase => p.write >= p.erase || Short(t, p.write)
    case FlashWaitData => p.write >= p.erase || Short(t, p.write)
    case FlashWrite =>
      if p.write < p.erase then Short(t, p.write)
      else FlashOffset(p.erase) >= CodeEnd(t) || AheadSize(p.erase, t, capacity, prohibit) < 0
  }

  /** Less than a page is available then, whatever was received. */
  lemma ShortAvail(t: Target, write: nat, received: nat)
    requires t.Flash() && InFlash(write) && received <= t.total && Short(t, write)
    ensures Avail(t, write, received) < PAGE_SIZE
  {
    NoOverflow(t, write, received, 0);
    InWindows(t);
    hide Avail;
  }

  lemma InWindows(t: Target)
    requires t.Flash()
    ensures 0x6000_0000 <= t.start < 0x7100_0000 && t.total < TWO32
  {
  }

  /** Otherwise a page is available once enough was received. */
  lemma LongAvail(t: Target, write: nat) returns (received: nat)
    requires t.Flash() && InFlash(write) && !Short(t, write)
    ensures received <= t.total
    ensures forall w: nat :: 0x6000_0000 <= w <= write ==> Avail(t, w, received) >= PAGE_SIZE
  {
    InWindows(t);
    received := if t.start >= write + PAGE_SIZE then 0 else write + PAGE_SIZE - t.start;
    forall w: nat | 0x6000_0000 <= w <= write
      ensures Avail(t, w, received) >= PAGE_SIZE
    {
      NoOverflow(t, w, received, 0);
      hide Avail;
    }
  }

  lemma QuietStep(p: Progress, t: Target, look: Look, capacity: nat, prohibit: seq<bool>)
    requires t.Flash() && Shape(capacity, prohibit) && Orderly(p, capacity, prohibit) && Quiet(p, t, capacity, prohibit)
    requires look.received <= t.total
    ensures Issued(p, t, look.received, look.idle, capacity, prohibit) == []
    ensures var q := Polled(p, t, look.received, look.idle, capacity, prohibit);
            Orderly(q, capacity, prohibit) && Quiet(q, t, capacity, prohibit)
  {
    hide Avail, CodeEnd, FlashOffset, AheadSize, PageSize, Add32, Target.Flash;
    if p.stage in {FlashErase, FlashWrite, FlashWaitData} {
      if p.write < p.erase {
        ShortAvail(t, p.write, look.received);
      } else {
        NoOverflow(t, p.erase, look.received, -1);
      }
    }
  }

  lemma {:induction false} QuietRun(p: Progress, t: Target, looks: seq<Look>, capacity: nat, prohibit: seq<bool>)
    requires t.Flash() && Shape(capacity, prohibit) && Orderly(p, capacity, prohibit) && Quiet(p, t, capacity, prohibit)
    requires Rising(looks, t.total)
    ensures Commands(p, t, looks, capacity, prohibit) == []
    decreases |looks|
  {
    hide Quiet, Issued, Polled, Target.Flash;
    if looks != [] {
      QuietStep(p, t, looks[0], capacity, prohibit);
      QuietRun(Polled(p, t, looks[0].received, looks[0].idle, capacity, prohibit), t, looks[1..], capacity, prohibit);
    }
  }

  // ----- and when they do not -----

  /** One idle poll, and the polls after it. */
  lemma LookFirst(p: Progress, t: Target, received: nat, looks: seq<Look>, capacity: nat, prohibit: seq<bool>)
    requires p.write < TWO32 && p.erase < TWO32 && Shape(capacity, prohibit)
    ensures var q := Polled(p, t, received, true, capacity, prohibit);
            Commands(p, t, [Look(received, true)] + looks, capacity, prohibit)
            == Issued(p, t, received, true, capacity, prohibit) + Commands(q, t, looks, capacity, prohibit)
  {
    var all := [Look(received, true)] + looks;
    assert all[1..] == looks;
    hide Polled, Issued;
  }

  /** n idle polls with the same size received. */
  function Looks(received: nat, n: nat): (looks: seq<Look>)
    ensures |looks| == n && (n > 0 ==> looks == [Look(received, true)] + Looks(received, n - 1))
  {
    seq(n, _ => Look(received, true))
  }

  /**
    Waiting for data before an allowed sector, with a page available.  The command may be refused
    because a page no longer fits on the device; its result -1 moves the address back until it does.
  */
  lemma {:induction false} PageIssued(p: Progress, t: Target, received: nat, capacity: nat, prohibit: seq<bool>)
    returns (n: nat)
    requires Shape(capacity, prohibit) && Orderly(p, capacity, prohibit)
    requires p.stage == FlashWaitData && p.write < p.erase
    requires forall w: nat :: 0x6000_0000 <= w <= p.write ==> Avail(t, w, received) >= PAGE_SIZE
    ensures Commands(p, t, Looks(received, n), capacity, prohibit) != []
    decreases FlashOffset(p.write)
  {
    hide Avail, Add32;
    if PageSize(p.write, capacity, prohibit) >= 0 {
      n := 1;
      LookFirst(p, t, received, [], capacity, prohibit);
      assert Looks(received, 1) == [Look(received, true)] + [];
    } else {
      var q, r := PageRefused(p, t, received, capacity, prohibit);
      var m := PageIssued(r, t, received, capacity, prohibit);
      n := m + 2;
      LookFirst(p, t, received, Looks(received, m + 1), capacity, prohibit);
      LookFirst(q, t, received, Looks(received, m), capacity, prohibit);
    }
  }

  /** A refused page: two polls later the address is one less. */
  lemma PageRefused(p: Progress, t: Target, received: nat, capacity: nat, prohibit: seq<bool>)
    returns (q: Progress, r: Progress)
    requires Shape(capacity, prohibit) && Orderly(p, capacity, prohibit)
    requires p.stage == FlashWaitData && p.write < p.erase && PageSize(p.write, capacity, prohibit) < 0
    requires Avail(t, p.write, received) >= PAGE_SIZE
    ensures q.write < TWO32 && q.erase < TWO32 && q == Polled(p, t, received, true, capacity, prohibit)
    ensures r == Polled(q, t, received, true, capacity, prohibit) == Progress(FlashWaitData, p.write - 1, p.erase)
    ensures FlashOffset(r.write) < FlashOffset(p.write) && Orderly(r, capacity, prohibit)
  {
    NoOverflow(t, p.write, received, -1);
    LastPage(p.write, capacity);
    hide Avail, Add32, FlashOffset;
    q := Polled(p, t, received, true, capacity, prohibit);
    r := Polled(q, t, received, true, capacity, prohibit);
  }

  /** Where a page does not fit, the byte before is in the same block. */
  lemma LastPage(write: nat, capacity: nat)
    requires capacity % SIZE_64K == 0 && FlashOffset(write) < capacity < FlashOffset(write) + PAGE_SIZE
    requires InFlash(write)
    ensures InFlash(write - 1) && FlashOffset(write - 1) == FlashOffset(write) - 1
    ensures FlashOffset(write - 1) / SIZE_64K == FlashOffset(write) / SIZE_64K
  {
    var q, o := write / WINDOW, write % WINDOW;
    Quotient(q, WINDOW, o - 1);
    hide FlashOffset;
    SameBlockBefore(o, capacity);
  }

  lemma SameBlockBefore(o: nat, capacity: nat)
    requires capacity % SIZE_64K == 0 && o < capacity < o + PAGE_SIZE
    ensures 0 < o && (o - 1) / SIZE_64K == o / SIZE_64K
  {
    var c := capacity / SIZE_64K;
    assert capacity == (c - 1) * SIZE_64K + SIZE_64K;
    Quotient(c - 1, SIZE_64K, o - (c - 1) * SIZE_64K);
    Quotient(c - 1, SIZE_64K, o - 1 - (c - 1) * SIZE_64K);
  }

  /** Some run of polls issues a command. */
  lemma NoisyRun(p: Progress, t: Target, capacity: nat, prohibit: seq<bool>) returns (looks: seq<Look>)
    requires t.Flash() && Shape(capacity, prohibit)
    requires Orderly(p, capacity, prohibit) && !Quiet(p, t, capacity, prohibit)
    ensures Rising(looks, t.total) && Commands(p, t, looks, capacity, prohibit) != []
  {
    hide Avail, Add32, FlashOffset, CodeEnd, PageSize, AheadSize;
    if p.write < p.erase {
      var received := LongAvail(t, p.write);
      if p.stage == FlashWaitData {
        var n := PageIssued(p, t, received, capacity, prohibit);
        looks := Looks(received, n);
      } else {
        var q := Polled(p, t, received, true, capacity, prohibit);
        var n := PageIssued(q, t, received, capacity, prohibit);
        looks := Looks(received, n + 1);
        LookFirst(p, t, received, Looks(received, n), capacity, prohibit);
      }
    } else {
      looks := Looks(0, 1);
      LookFirst(p, t, 0, [], capacity, prohibit);
      assert looks == [Look(0, true)] + [];
    }
  }

  /**
    Whatever the host sends and however long the device is busy, polls after a START that leaves
    the stage alone issue no command, if and only if the state is quiet for the new target.
  */
  lemma LeftAloneExactly(p: Progress, t: Target, capacity: nat, prohibit: seq<bool>)
    requires t.Flash() && Shape(capacity, prohibit) && Orderly(p, capacity, prohibit)
    ensures (forall looks: seq<Look> :: Rising(looks, t.total) ==> Commands(p, t, looks, capacity, prohibit) == [])
       <==> Quiet(p, t, capacity, prohibit)
  {
    hide Quiet, Rising, Commands, Target.Flash;
    if Quiet(p, t, capacity, prohibit) {
      forall looks: seq<Look> | Rising(looks, t.total)
        ensures Commands(p, t, looks, capacity, prohibit) == []
      {
        QuietRun(p, t, looks, capacity, prohibit);
      }
    } else {
      var looks := NoisyRun(p, t, capacity, prohibit);
    }
  }

  /** A progressive download on the device is in such a state between any two polls. */
  lemma GoodIsOrderly(p: Progress, t: Target, received: nat, capacity: nat, prohibit: seq<bool>)
    requires t.Fits() && Shape(capacity, prohibit) && Startable(t, capacity, prohibit) && t.End() <= capacity
    requires p.Good(t, Limit(t, prohibit), received)
    ensures Orderly(p, capacity, prohibit)
  {
    hide Limit, Startable, Permitted, Target.Base, Target.Off, Target.Lo, Target.End;
    var stop := Limit(t, prohibit);
    Geometry(t);
    LimitIs(t, capacity, prohibit);
    Offsets(p, t, stop, received);
    Bounds(p, t, stop, received);
    OffsetInWindow(t.Base(), p.write - t.Base());
    if p.write < p.erase {
      PermittedAt(prohibit, t.Lo(), stop, p.write - t.Base());
    }
  }
}
