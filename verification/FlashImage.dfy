/**
  What a flash download is meant to leave on the device, and the address arithmetic around it.
*/
module FlashImage {

  import opened SpiFlash
  import opened Words

  /** The work memory that the download uses as a ring. */
  const WORKMEM_SIZE: nat := 0x2_0000
  const SECTOR_SIZE: nat := SIZE_4K
  /** HAL_FLASH_OFFSET keeps the low 24 bits of an address. */
  const WINDOW: nat := MAX_CAPACITY

  function FlashOffset(address: nat): (offset: nat)
    ensures offset < WINDOW
  {
    address % WINDOW
  }

  /** Cells where [lo, hi) was erased and then data written at off. */
  function Burn(cells: seq<bv8>, lo: nat, hi: nat, off: nat, data: seq<bv8>): (r: seq<bv8>)
    ensures |r| == |cells|
  {
    seq(|cells|, i requires 0 <= i < |cells| =>
      if off <= i < off + |data| then data[i - off]
      else if lo <= i < hi then 0xFF
      else cells[i])
  }

  lemma BurnNothing(cells: seq<bv8>, lo: nat, off: nat)
    ensures Burn(cells, lo, lo, off, []) == cells
  {
  }

  /** Erasing further never touches what was programmed. */
  lemma BurnErase(cells: seq<bv8>, lo: nat, mid: nat, hi: nat, off: nat, data: seq<bv8>)
    requires lo <= mid <= hi && (data == [] || off + |data| <= mid)
    ensures EraseRange(Burn(cells, lo, mid, off, data), mid, hi) == Burn(cells, lo, hi, off, data)
  {
  }

  /** Programming erased cells stores the data: every byte is programmed over 0xFF. */
  lemma BurnProgram(cells: seq<bv8>, lo: nat, hi: nat, off: nat, data: seq<bv8>, more: seq<bv8>)
    requires lo <= off && off + |data| + |more| <= hi
    ensures Program(Burn(cells, lo, hi, off, data), off + |data|, more) == Burn(cells, lo, hi, off, data + more)
  {
    assert forall i :: 0 <= i < |more| ==> 0xFF & more[i] == more[i];
  }

  // ----- where a download goes -----

  datatype Target = Target(start: nat, total: nat)
  {
    function Base(): nat { start - start % WINDOW }
    function Off(): nat { FlashOffset(start) }
    /** The 4K aligned cover of the target, as device offsets. */
    function Lo(): nat { AlignDown(Off(), SECTOR_SIZE) }
    function End(): nat { AlignUp(Off() + total, SECTOR_SIZE) }

    /** The target starts in one of the two flash windows. */
    predicate Flash() {
      start / WINDOW in {0x60, 0x70} && total < TWO32
    }

    /** The target lies in one of the two flash windows. */
    predicate Fits() {
      Flash() && Off() + total <= WINDOW
    }

    /** What the device shall hold after data was downloaded to the target. */
    function Image(cells: seq<bv8>, data: seq<bv8>): seq<bv8> {
      Burn(cells, Lo(), End(), Off(), data)
    }
  }

  lemma Geometry(t: Target)
    requires t.Flash()
    ensures t.start == t.Base() + t.Off() && t.Base() % WINDOW == 0 && t.Base() + WINDOW < TWO32
    ensures FlashOffset(t.start) == t.Off()
    ensures t.Lo() <= t.Off() < t.Lo() + SECTOR_SIZE && t.Lo() % SECTOR_SIZE == 0 && t.Lo() < WINDOW
    ensures t.Off() + t.total <= t.End() < t.Off() + t.total + SECTOR_SIZE
    ensures t.End() % SECTOR_SIZE == 0 && t.Lo() <= t.End() && (t.Fits() <==> t.End() <= WINDOW)
    ensures AlignDown(t.start, SECTOR_SIZE) == t.Base() + t.Lo()
    ensures AlignUp(t.start + t.total, SECTOR_SIZE) == t.Base() + t.End()
  {
    BaseAligned(t.start);
    var q := t.Base() / SECTOR_SIZE;
    assert t.Base() == q * SECTOR_SIZE;
    assert t.start % SECTOR_SIZE == t.Off() % SECTOR_SIZE;
    EndAligned(t);
  }

  lemma BaseAligned(start: nat)
    ensures var b := start - start % WINDOW;
            b % WINDOW == 0 && b % SECTOR_SIZE == 0 && b % WORKMEM_SIZE == 0 && b % PAGE_SIZE == 0
  {
    var q := start / WINDOW;
    assert start - start % WINDOW == q * WINDOW;
    WindowOfSectors(q);
    WindowOfRings(q);
    WindowOfPages(q);
  }

  lemma WindowOfSectors(q: nat)
    ensures (q * WINDOW) % SECTOR_SIZE == 0
  {
    assert q * WINDOW == (q * 0x1000) * SECTOR_SIZE;
  }

  lemma WindowOfRings(q: nat)
    ensures (q * WINDOW) % WORKMEM_SIZE == 0
  {
    assert q * WINDOW == (q * 0x80) * WORKMEM_SIZE;
  }

  lemma WindowOfPages(q: nat)
    ensures (q * WINDOW) % PAGE_SIZE == 0
  {
    assert q * WINDOW == (q * 0x1_0000) * PAGE_SIZE;
  }

  lemma EndAligned(t: Target)
    requires t.Flash()
    ensures t.Off() + t.total <= t.End() < t.Off() + t.total + SECTOR_SIZE
    ensures t.End() % SECTOR_SIZE == 0 && t.Lo() <= t.End()
    ensures t.Off() + t.total <= WINDOW <==> t.End() <= WINDOW
    ensures AlignUp(t.start + t.total, SECTOR_SIZE) == t.Base() + t.End()
  {
    var n := t.Off() + t.total + SECTOR_SIZE - 1;
    BaseAligned(t.start);
    var q := t.Base() / SECTOR_SIZE;
    assert (q * SECTOR_SIZE + n) % SECTOR_SIZE == n % SECTOR_SIZE;
    assert t.End() == n - n % SECTOR_SIZE;
    assert WINDOW % SECTOR_SIZE == 0;
  }

  lemma OffsetInWindow(base: nat, x: nat)
    requires base % WINDOW == 0 && x <= WINDOW
    ensures FlashOffset(base + x) == if x == WINDOW then 0 else x
  {
  }

  /** The image holds the data, has its margins erased, and is unchanged outside the cover. */
  lemma ImageMeaning(t: Target, cells: seq<bv8>, data: seq<bv8>, i: nat)
    requires t.Fits() && |data| == t.total && i < |cells|
    ensures var c := t.Image(cells, data)[i];
            && (t.Off() <= i < t.Off() + t.total ==> c == data[i - t.Off()])
            && (t.Lo() <= i < t.Off() || t.Off() + t.total <= i < t.End() ==> c == 0xFF)
            && (i < t.Lo() || t.End() <= i ==> c == cells[i])
  {
    Geometry(t);
  }

  // ----- the ring -----

  /** Put data into the ring at pos, wrapping around once. */
  function RingPut(ring: seq<bv8>, pos: nat, data: seq<bv8>): (r: seq<bv8>)
    requires |ring| == WORKMEM_SIZE && pos < WORKMEM_SIZE && |data| <= WORKMEM_SIZE
    ensures |r| == WORKMEM_SIZE
  {
    var tail := WORKMEM_SIZE - pos;
    if tail >= |data| then ring[..pos] + data + ring[pos + |data|..]
    else data[tail..] + ring[|data| - tail..pos] + data[..tail]
  }

  /** Bytes [from, to) of the payload are in the ring, indexed by their flash address. */
  ghost predicate RingHolds(ring: seq<bv8>, start: nat, from: nat, to: nat, payload: seq<bv8>)
  {
    && |ring| == WORKMEM_SIZE && from <= to <= |payload|
    && forall k :: from <= k < to ==> ring[(start + k) % WORKMEM_SIZE] == payload[k]
  }

  lemma RingPutAt(ring: seq<bv8>, pos: nat, data: seq<bv8>, i: nat)
    requires |ring| == WORKMEM_SIZE && pos < WORKMEM_SIZE && |data| <= WORKMEM_SIZE && i < WORKMEM_SIZE
    ensures var d := if i >= pos then i - pos else i + WORKMEM_SIZE - pos;
            RingPut(ring, pos, data)[i] == if d < |data| then data[d] else ring[i]
  {
  }

  /**
    The received bytes after one more packet, when those from `from` on are waiting in the ring:
    what does not fit behind them replaces the oldest.
  */
  function Overrun(payload: seq<bv8>, from: nat, data: seq<bv8>): (r: seq<bv8>)
    requires from <= |payload| <= from + WORKMEM_SIZE && |data| <= WORKMEM_SIZE
    ensures |r| == |payload| + |data| && r[..from] == payload[..from]
    ensures |payload| - from + |data| <= WORKMEM_SIZE ==> r == payload + data
  {
    var lost := if |payload| - from + |data| <= WORKMEM_SIZE then 0 else |payload| - from + |data| - WORKMEM_SIZE;
    payload[..from] + data[|data| - lost..] + payload[from + lost..] + data
  }

  /** After a packet was put into the ring, all waiting bytes are there, the overrun ones replaced. */
  lemma RingAppend(ring: seq<bv8>, start: nat, from: nat, payload: seq<bv8>, data: seq<bv8>)
    requires RingHolds(ring, start, from, |payload|, payload)
    requires |payload| <= from + WORKMEM_SIZE && |data| <= WORKMEM_SIZE
    ensures RingHolds(RingPut(ring, (start + |payload|) % WORKMEM_SIZE, data), start, from,
                      |payload| + |data|, Overrun(payload, from, data))
  {
    var pos := (start + |payload|) % WORKMEM_SIZE;
    var put := RingPut(ring, pos, data);
    forall k | from <= k < |payload| + |data|
      ensures put[(start + k) % WORKMEM_SIZE] == Overrun(payload, from, data)[k]
    {
      RingPutAt(ring, pos, data, (start + k) % WORKMEM_SIZE);
      RingDistance(start + |payload|, start + k);
      hide RingPut;
    }
  }

  /** How far the slot of address b lies behind the slot of address a. */
  lemma RingDistance(a: nat, b: nat)
    requires a <= b + WORKMEM_SIZE && b < a + WORKMEM_SIZE
    ensures var i, pos := b % WORKMEM_SIZE, a % WORKMEM_SIZE;
            (if i >= pos then i - pos else i + WORKMEM_SIZE - pos)
            == (if b >= a then b - a else b - a + WORKMEM_SIZE)
  {
    var q, r := a / WORKMEM_SIZE, b / WORKMEM_SIZE;
    assert a == q * WORKMEM_SIZE + a % WORKMEM_SIZE;
    assert b == r * WORKMEM_SIZE + b % WORKMEM_SIZE;
  }

  /**
    The waiting bytes and a packet of n bytes are all in the ring afterwards, whatever they are,
    if and only if the packet fits behind the waiting bytes.
  */
  lemma RingKeptExactly(ring: seq<bv8>, start: nat, from: nat, to: nat, n: nat)
    requires |ring| == WORKMEM_SIZE && from <= to <= from + WORKMEM_SIZE && n <= WORKMEM_SIZE
    ensures (forall payload: seq<bv8>, data: seq<bv8> ::
               |payload| == to && |data| == n && RingHolds(ring, start, from, to, payload) ==>
                 RingHolds(RingPut(ring, (start + to) % WORKMEM_SIZE, data), start, from, to + n, payload + data))
       <==> to - from + n <= WORKMEM_SIZE
  {
    hide RingPut, RingHolds;
    if to - from + n <= WORKMEM_SIZE {
      forall payload: seq<bv8>, data: seq<bv8> |
        |payload| == to && |data| == n && RingHolds(ring, start, from, to, payload)
        ensures RingHolds(RingPut(ring, (start + to) % WORKMEM_SIZE, data), start, from, to + n, payload + data)
      {
        RingAppend(ring, start, from, payload, data);
      }
    } else {
      var payload := Slots(ring, start, to);
      SlotsHold(ring, start, from, to);
      var data := Others(n, payload[from]);
      hide Slots;
      RingLoses(ring, start, from, payload, data);
    }
  }

  /** The oldest waiting byte is overwritten by a different one. */
  lemma RingLoses(ring: seq<bv8>, start: nat, from: nat, payload: seq<bv8>, data: seq<bv8>)
    requires |ring| == WORKMEM_SIZE && RingHolds(ring, start, from, |payload|, payload)
    requires from <= |payload| <= from + WORKMEM_SIZE && |data| <= WORKMEM_SIZE < |payload| - from + |data|
    requires forall i :: 0 <= i < |data| ==> data[i] != payload[from]
    ensures !RingHolds(RingPut(ring, (start + |payload|) % WORKMEM_SIZE, data), start, from,
                       |payload| + |data|, payload + data)
  {
    hide RingHolds, RingPut, Overrun;
    RingAppend(ring, start, from, payload, data);
    OverrunOldest(payload, from, data);
    HoldsOne(RingPut(ring, (start + |payload|) % WORKMEM_SIZE, data), start, from, |payload| + |data|,
             Overrun(payload, from, data), payload + data);
  }

  /** The ring does not hold two payloads that differ in the first byte. */
  lemma HoldsOne(ring: seq<bv8>, start: nat, from: nat, to: nat, a: seq<bv8>, b: seq<bv8>)
    requires RingHolds(ring, start, from, to, a) && from < to <= |b| && a[from] != b[from]
    ensures !RingHolds(ring, start, from, to, b)
  {
    RingHoldsAt(ring, start, from, to, a, from);
  }

  function Others(n: nat, b: bv8): (data: seq<bv8>)
    ensures |data| == n && forall i :: 0 <= i < n ==> data[i] != b
  {
    seq(n, _ => if b == 0 then 1 else 0)
  }

  /** What the slots of the first addresses hold. */
  function Slots(ring: seq<bv8>, start: nat, to: nat): (payload: seq<bv8>)
    requires |ring| == WORKMEM_SIZE
    ensures |payload| == to
  {
    seq(to, k requires 0 <= k < to => ring[(start + k) % WORKMEM_SIZE])
  }

  lemma SlotsHold(ring: seq<bv8>, start: nat, from: nat, to: nat)
    requires |ring| == WORKMEM_SIZE && from <= to
    ensures RingHolds(ring, start, from, to, Slots(ring, start, to))
  {
  }

  lemma RingHoldsAt(ring: seq<bv8>, start: nat, from: nat, to: nat, payload: seq<bv8>, k: nat)
    requires RingHolds(ring, start, from, to, payload) && from <= k < to
    ensures ring[(start + k) % WORKMEM_SIZE] == payload[k]
  {
  }

  lemma OverrunOldest(payload: seq<bv8>, from: nat, data: seq<bv8>)
    requires from < |payload| <= from + WORKMEM_SIZE && |data| <= WORKMEM_SIZE < |payload| - from + |data|
    ensures Overrun(payload, from, data)[from] == data[from + WORKMEM_SIZE - |payload|]
  {
  }

  /** A stretch of the ring that does not wrap around is the payload itself. */
  lemma RingLinear(ring: seq<bv8>, start: nat, from: nat, to: nat, payload: seq<bv8>, n: nat)
    requires RingHolds(ring, start, from, to, payload)
    requires from + n <= to && (start + from) % WORKMEM_SIZE + n <= WORKMEM_SIZE
    ensures var pos := (start + from) % WORKMEM_SIZE;
            ring[pos..pos + n] == payload[from..from + n]
  {
    var pos := (start + from) % WORKMEM_SIZE;
    var a, b := ring[pos..pos + n], payload[from..from + n];
    forall i | 0 <= i < n
      ensures a[i] == b[i]
    {
      assert ring[(start + (from + i)) % WORKMEM_SIZE] == payload[from + i];
      NoWrap(start + from, i);
    }
  }

  lemma NoWrap(a: nat, i: nat)
    requires a % WORKMEM_SIZE + i < WORKMEM_SIZE
    ensures (a + i) % WORKMEM_SIZE == a % WORKMEM_SIZE + i
  {
  }
}
