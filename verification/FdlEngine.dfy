/**
  The engine of boot_fdl.c itself: the sender with its small flush buffer, and the receiver that
  swaps the header bytes in place, both proved against the framing in Hdlc.
*/
module FdlEngine {

  import opened Checksum
  import opened Hdlc

  const THRESHOLD: nat := 128

  /** The output side of a channel: a write takes at least one byte, but perhaps not all. */
  class Channel {
    var sent: seq<byte>

    method Write(data: seq<byte>) returns (r: nat)
      requires data != []
      modifies this
      ensures 0 < r <= |data| && sent == old(sent) + data[..r]
    {
      r :| 0 < r <= |data|;
      sent := sent + data[..r];
    }
  }

  method WriteAll(ch: Channel, data: seq<byte>)
    modifies ch
    ensures ch.sent == old(ch.sent) + data
  {
    var done := 0;
    while done < |data|
      invariant done <= |data| && ch.sent == old(ch.sent) + data[..done]
    {
      var r := ch.Write(data[done..]);
      assert data[..done] + data[done..][..r] == data[..done + r];
      done := done + r;
    }
  }

  /** Put the stuffed byte into the buffer, which has room for two bytes. */
  method FillSendByte(b: byte, dst: array<byte>, at: nat) returns (n: nat)
    requires at + 2 <= dst.Length
    modifies dst
    ensures n == |Stuff(b)| && dst[..at + n] == old(dst[..at]) + Stuff(b)
  {
    if b == FLAG || b == ESCAPE {
      dst[at] := ESCAPE;
      dst[at + 1] := ClearMask(b);
      n := 2;
      assert dst[..at + 2] == dst[..at] + [dst[at], dst[at + 1]];
    } else {
      dst[at] := b;
      n := 1;
      assert dst[..at + 1] == dst[..at] + [dst[at]];
    }
  }

  /** The packet in memory, with little-endian header fields. */
  function InMemory(m: seq<byte>): Packet
    requires |m| >= HEAD_LEN && |m| >= HEAD_LEN + LeValue(m[2], m[3])
  {
    Packet(LeValue(m[0], m[1]), m[HEAD_LEN..HEAD_LEN + LeValue(m[2], m[3])])
  }

  function Swapped(m: seq<byte>): (s: seq<byte>)
    requires |m| >= HEAD_LEN
    ensures |s| == |m|
  {
    [m[1], m[0], m[3], m[2]] + m[HEAD_LEN..]
  }

  lemma SwappedHeader(m: seq<byte>)
    requires |m| >= HEAD_LEN && |m| >= HEAD_LEN + LeValue(m[2], m[3])
    ensures InMemory(m).Fits() && |Body(InMemory(m))| == HEAD_LEN + LeValue(m[2], m[3])
    ensures Swapped(m)[..HEAD_LEN + LeValue(m[2], m[3])] == Body(InMemory(m))
  {
    var size := LeValue(m[2], m[3]);
    LeBytes(m[0], m[1]);
    LeBytes(m[2], m[3]);
    assert Swapped(m)[..HEAD_LEN + size] == [m[1], m[0]] + [m[3], m[2]] + m[HEAD_LEN..HEAD_LEN + size];
  }

  lemma LeBytes(lo: byte, hi: byte)
    ensures LeValue(lo, hi) % 0x100 == lo && LeValue(lo, hi) / 0x100 == hi
  {
  }

  /** The header fields to network order, in place. */
  method SwapHeader(pkt: array<byte>)
    requires pkt.Length >= HEAD_LEN
    modifies pkt
    ensures pkt[..] == Swapped(old(pkt[..]))
  {
    pkt[2], pkt[3] := pkt[3], pkt[2];
    pkt[0], pkt[1] := pkt[1], pkt[0];
  }

  /** Send one packet; its header is left swapped. */
  method SendPacket(ch: Channel, pkt: array<byte>)
    requires pkt.Length >= HEAD_LEN && pkt.Length >= HEAD_LEN + LeValue(pkt[2], pkt[3])
    modifies ch, pkt
    ensures InMemory(old(pkt[..])).Fits()
    ensures ch.sent == old(ch.sent) + Frame(InMemory(old(pkt[..])))
    ensures pkt[..] == Swapped(old(pkt[..]))
  {
    hide StuffAll, Body, InMemory, Internet, Le16, Swapped;
    ghost var m := pkt[..];
    var size := LeValue(pkt[2], pkt[3]) + HEAD_LEN;
    SwappedHeader(m);
    SwapHeader(pkt);
    var data := pkt[..size];
    assert data == Swapped(m)[..size];
    var crc := CalcCrc16Frm(data);
    SendBytes(ch, data, Le16(crc));
  }

  /** The sending loop.  The buffer never holds more than 132 of its 136 bytes. */
  method SendBytes(ch: Channel, data: seq<byte>, crcBuf: seq<byte>)
    requires |crcBuf| == CRC_LEN
    modifies ch
    ensures ch.sent == old(ch.sent) + ([FLAG] + StuffAll(data + crcBuf) + [FLAG])
  {
    hide Stuff, StuffAll;
    ghost var d, before := data + crcBuf, ch.sent;
    assert d[..|data|] == data;
    var sendBuf := new byte[THRESHOLD + 8];
    var len: nat := 0;
    sendBuf[len] := FLAG;
    len := len + 1;
    StuffNothing(d);
    assert sendBuf[..len] == [FLAG];
    for i := 0 to |data|
      invariant len < THRESHOLD
      invariant ch.sent + sendBuf[..len] == before + [FLAG] + StuffAll(d[..i])
    {
      ghost var sent, held := ch.sent, sendBuf[..len];
      var n := FillSendByte(data[i], sendBuf, len);
      len := len + n;
      StuffNext(d, i);
      Regroup(sent, held, Stuff(d[i]), before + [FLAG], StuffAll(d[..i]));
      if len >= THRESHOLD {
        WriteAll(ch, sendBuf[..len]);
        len := 0;
      }
    }
    FinishFrame(ch, sendBuf, len, crcBuf, d, |data|, before);
  }

  lemma StuffNothing(d: seq<byte>)
    ensures StuffAll(d[..0]) == []
  {
  }

  /** What was sent and what is buffered, with more added. */
  lemma Regroup(sent: seq<byte>, held: seq<byte>, more: seq<byte>, before: seq<byte>, body: seq<byte>)
    requires sent + held == before + body
    ensures sent + (held + more) == before + (body + more)
  {
    assert sent + (held + more) == (sent + held) + more;
    assert before + (body + more) == (before + body) + more;
  }

  lemma StuffNext(d: seq<byte>, i: nat)
    requires i < |d|
    ensures StuffAll(d[..i + 1]) == StuffAll(d[..i]) + Stuff(d[i])
  {
    assert d[..i + 1] == d[..i] + [d[i]];
    StuffConcat(d[..i], [d[i]]);
    assert StuffAll([d[i]]) == Stuff(d[i]);
  }

  /** The checksum bytes, the closing flag and the last write of a packet. */
  method FinishFrame(ch: Channel, sendBuf: array<byte>, len0: nat, crcBuf: seq<byte>,
                     ghost d: seq<byte>, ghost size: nat, ghost before: seq<byte>)
    requires sendBuf.Length == THRESHOLD + 8 && len0 < THRESHOLD && |crcBuf| == CRC_LEN
    requires size + 2 == |d| && crcBuf == d[size..]
    requires ch.sent + sendBuf[..len0] == before + [FLAG] + StuffAll(d[..size])
    modifies ch, sendBuf
    ensures ch.sent == before + ([FLAG] + StuffAll(d) + [FLAG])
  {
    hide Stuff, StuffAll;
    var len := len0;
    ghost var sent, held := ch.sent, sendBuf[..len];
    StuffNext(d, size);
    StuffNext(d, size + 1);
    assert d[..size + 2] == d;
    ghost var body := StuffAll(d[..size]);
    Regroup(sent, held, Stuff(crcBuf[0]), before + [FLAG], body);
    Regroup(sent, held + Stuff(crcBuf[0]), Stuff(crcBuf[1]), before + [FLAG], body + Stuff(crcBuf[0]));
    Regroup(sent, held + Stuff(crcBuf[0]) + Stuff(crcBuf[1]), [FLAG], before + [FLAG], StuffAll(d));
    assert before + [FLAG] + (StuffAll(d) + [FLAG]) == before + ([FLAG] + StuffAll(d) + [FLAG]);
    var n := FillSendByte(crcBuf[0], sendBuf, len);
    len := len + n;
    n := FillSendByte(crcBuf[1], sendBuf, len);
    len := len + n;
    sendBuf[len] := FLAG;
    len := len + 1;
    assert sendBuf[..len] == sendBuf[..len - 1] + [FLAG];
    WriteAll(ch, sendBuf[..len]);
  }

  // ----- the receiver -----

  /** The received bytes behind a buffer whose size field was swapped once the header was there. */
  function Unswapped(m: seq<byte>): (raw: seq<byte>)
    ensures |raw| == |m|
  {
    if |m| < HEAD_LEN then m else [m[0], m[1], m[3], m[2]] + m[HEAD_LEN..]
  }

  /** Storing a byte, and swapping when it completes the header, appends it to the received bytes. */
  lemma StoreByte(m: seq<byte>, b: byte, after: seq<byte>)
    requires after == if |m| + 1 == HEAD_LEN then [m[0], m[1], b, m[2]] else m + [b]
    ensures Unswapped(after) == Unswapped(m) + [b]
  {
  }

  /** A received packet, with its header swapped, is the packet as it was in the sender's memory. */
  lemma SwappedParses(raw: seq<byte>)
    requires Complete(raw)
    ensures HEAD_LEN + LeValue(Swapped(raw)[2], Swapped(raw)[3]) == |raw| - CRC_LEN
    ensures InMemory(Swapped(raw)) == Parsed(raw)
  {
    var m := Swapped(raw);
    assert m[HEAD_LEN..|raw| - CRC_LEN] == raw[HEAD_LEN..|raw| - CRC_LEN];
  }

  lemma SwappedAt(m: seq<byte>, s: seq<byte>)
    requires |s| == |m| >= HEAD_LEN
    requires s[0] == m[1] && s[1] == m[0] && s[2] == m[3] && s[3] == m[2] && s[HEAD_LEN..] == m[HEAD_LEN..]
    ensures s == Swapped(m)
  {
    assert s == s[..HEAD_LEN] + s[HEAD_LEN..];
  }

  lemma ChunkStep(limit: nat, s: Rx, d: seq<byte>)
    requires s.Valid(limit) && d != []
    ensures var (next, outcome) := Step(limit, s, d[0]);
            Chunk(limit, s, d)
            == match outcome
               case Panic => Fed(next, [], true)
               case Overflow => Fed(next, [], false)
               case Quiet => Chunk(limit, next, d[1..])
               case Deliver(p) =>
                 var rest := Chunk(limit, next, d[1..]);
                 Fed(rest.rx, [p] + rest.packets, rest.panic)
  {
  }

  lemma ChunkEnd(limit: nat, s: Rx)
    requires s.Valid(limit)
    ensures Chunk(limit, s, []) == Fed(s, [], false)
  {
  }

  lemma StartStep(limit: nat, s: Rx, b: byte)
    requires s.Valid(limit)
    ensures s.state == RxStart ==>
              && Step(limit, s, b) == (if b == FLAG then Rx(RxRun, []) else s, Quiet)
              && Rx(RxRun, []).Valid(limit)
    ensures s.state == RxEnd ==> Step(limit, s, b).1 != Overflow
  {
  }

  class Receiver {
    const data: array<byte>
    var len: nat
    var state: RxState

    /** The parser state that the buffer stands for. */
    ghost function Abs(): Rx
      requires len <= data.Length
      reads this, data
    {
      Rx(state, Unswapped(data[..len]))
    }

    ghost predicate Valid()
      reads this, data
    {
      && HEAD_LEN + CRC_LEN <= data.Length <= 0x2_0000
      && len <= data.Length && Abs().Valid(data.Length)
    }

    constructor (maxPacketLen: nat)
      requires maxPacketLen + 32 <= 0x2_0000
      ensures Valid() && Abs() == Rx(RxStart, []) && data.Length == maxPacketLen + 32
      ensures fresh(data)
    {
      data := new byte[maxPacketLen + 32](_ => 0xFF);
      len, state := 0, RxStart;
    }

    /** One byte outside a complete packet: the last branch of the parser. */
    method RunByte(b0: byte) returns (overflow: bool)
      requires Valid() && state in {RxRun, RxEscape}
      modifies this, data
      ensures Valid() && (Abs(), if overflow then Overflow else Quiet) == Step(data.Length, old(Abs()), b0)
    {
      hide Internet, SetMask;
      ghost var m := data[..len];
      var b := b0;
      if b == FLAG {
        state := RxRun;
        len := 0;
        return false;
      }
      if b == ESCAPE && state == RxRun {
        state := RxEscape;
        return false;
      }
      if state == RxEscape {
        b := SetMask(b);
        state := RxRun;
      }
      // On an overflow all data is dropped, and the next flag is searched.
      if len >= data.Length {
        len := 0;
        state := RxStart;
        return true;
      }
      data[len] := b;
      len := len + 1;
      if len == HEAD_LEN {
        data[2], data[3] := data[3], data[2];
      }
      StoreByte(m, b, data[..len]);
      if len >= HEAD_LEN + CRC_LEN {
        if LeValue(data[2], data[3]) == len - HEAD_LEN - CRC_LEN {
          state := RxEnd;
        }
      }
      return false;
    }

    /** The byte after a complete packet. */
    method EndByte(b: byte) returns (outcome: Outcome)
      requires Valid() && state == RxEnd
      modifies this, data
      ensures outcome == Step(data.Length, old(Abs()), b).1
      ensures outcome != Panic ==> Valid() && Abs() == Step(data.Length, old(Abs()), b).0
    {
      hide Internet;
      if b != FLAG {
        state := RxStart;
        return Quiet;
      }
      ghost var raw := Unswapped(data[..len]);
      outcome := TakePacket(raw);
      state := RxRun;
      if outcome != Panic {
        len := 0;
      }
    }

    /** Whether the checksum at the end of the buffer is that of the bytes before it. */
    method Verify() returns (intact: bool)
      requires HEAD_LEN + CRC_LEN <= len <= data.Length <= 0x2_0000
      ensures intact == Rx(RxEnd, data[..len]).Intact()
      ensures var lo: int, hi: int := data[len - 2], data[len - 1];
              intact <==> lo + 0x100 * hi == Internet(data[..len - 2])
    {
      hide Internet;
      var crc := LeValue(data[len - 2], data[len - 1]);
      var calcCrc := CalcCrc16Frm(data[..len - 2]);
      assert data[..len][..len - 2] == data[..len - 2];
      intact := crc == calcCrc;
    }

    /** The packet that the callback finds in the buffer. */
    method InBuffer() returns (p: Packet)
      requires HEAD_LEN <= len <= data.Length && HEAD_LEN + LeValue(data[2], data[3]) <= len
      ensures p == InMemory(data[..len])
    {
      var size := LeValue(data[2], data[3]);
      assert data[..len][HEAD_LEN..HEAD_LEN + size] == data[HEAD_LEN..HEAD_LEN + size];
      p := Packet(LeValue(data[0], data[1]), data[HEAD_LEN..HEAD_LEN + size]);
    }

    /** Verify and deliver the packet in the buffer: the header is swapped back, and swapped again. */
    method TakePacket(ghost raw: seq<byte>) returns (outcome: Outcome)
      requires HEAD_LEN + CRC_LEN <= len <= data.Length <= 0x2_0000
      requires raw == Unswapped(data[..len]) && Complete(raw)
      modifies data
      ensures outcome == if Rx(RxEnd, raw).Intact() then Deliver(Parsed(raw)) else Panic
    {
      data[2], data[3] := data[3], data[2];
      assert data[..len] == raw;
      hide Internet, Unswapped, Complete, Parsed, Swapped, InMemory, Rx.Intact;
      SwappedParses(raw);
      var intact := Verify();
      data[0], data[1] := data[1], data[0];
      data[2], data[3] := data[3], data[2];
      if !intact {
        return Panic;
      }
      SwappedAt(raw, data[..len]);
      var p := InBuffer();
      outcome := Deliver(p);
    }

    /** One pass of the loop over a read buffer, up to a panic or an overflow. */
    method Process(recv: seq<byte>) returns (packets: seq<Packet>, panic: bool)
      requires Valid()
      modifies this, data
      ensures var f := Chunk(data.Length, old(Abs()), recv);
              packets == f.packets && panic == f.panic && (!panic ==> Valid() && Abs() == f.rx)
    {
      hide Unswapped, Complete, Rx.Intact, Rx.Valid, Chunk, Step;
      packets, panic := [], false;
      ghost var f := Chunk(data.Length, Abs(), recv);
      assert recv[0..] == recv;
      for i := 0 to |recv|
        invariant Valid() && !panic
        invariant var rest := Chunk(data.Length, Abs(), recv[i..]);
                  f == Fed(rest.rx, packets + rest.packets, rest.panic)
      {
        var b := recv[i];
        assert recv[i..][0] == b && recv[i..][1..] == recv[i + 1..];
        ChunkStep(data.Length, Abs(), recv[i..]);
        StartStep(data.Length, Abs(), b);
        if state == RxStart {
          if b == FLAG {
            state := RxRun;
            len := 0;
          }
        } else if state == RxEnd {
          var outcome := EndByte(b);
          if outcome == Panic {
            panic := true;
            return;
          }
          if outcome.Deliver? {
            packets := packets + [outcome.packet];
          }
        } else {
          var overflow := RunByte(b);
          if overflow {
            return;
          }
        }
      }
      ChunkEnd(data.Length, Abs());
      assert recv[|recv|..] == [];
    }
  }

  // ----- both ends together -----

  /** A packet as it lies in memory before it is sent. */
  function Image(p: Packet): (m: seq<byte>)
    requires p.Fits()
    ensures |m| == HEAD_LEN + |p.content|
  {
    Le16(p.kind) + Le16(|p.content|) + p.content
  }

  lemma ImageIs(p: Packet)
    requires p.Fits()
    ensures LeValue(Image(p)[2], Image(p)[3]) == |p.content| && InMemory(Image(p)) == p
  {
    LeOfLe(p.kind);
    LeOfLe(|p.content|);
    assert Image(p)[HEAD_LEN..HEAD_LEN + |p.content|] == p.content;
  }

  lemma LeOfLe(n: nat)
    requires n < M16
    ensures LeValue(Le16(n)[0], Le16(n)[1]) == n
  {
  }

  lemma {:induction false} FramesAppend(ps: seq<Packet>, p: Packet)
    requires p.Fits() && forall q :: q in ps ==> q.Fits()
    ensures Frames(ps + [p]) == Frames(ps) + Frame(p)
    decreases |ps|
  {
    hide Frame;
    if ps == [] {
      assert ps + [p] == [p] && [p][1..] == [];
    } else {
      FramesAppend(ps[1..], p);
      assert (ps + [p])[1..] == ps[1..] + [p];
      assert Frame(ps[0]) + (Frames(ps[1..]) + Frame(p)) == (Frame(ps[0]) + Frames(ps[1..])) + Frame(p);
    }
  }

  method SendAll(ch: Channel, ps: seq<Packet>)
    requires forall p :: p in ps ==> p.Fits()
    modifies ch
    ensures ch.sent == old(ch.sent) + Frames(ps)
  {
    hide Frame, Frames;
    assert ps[..0] == [] && Frames([]) == [] by {
      FramesOfNone();
    }
    for n := 0 to |ps|
      invariant ch.sent == old(ch.sent) + Frames(ps[..n])
    {
      hide InMemory, Image;
      var m := Image(ps[n]);
      var pkt := new byte[|m|](i requires 0 <= i < |m| => m[i]);
      assert pkt[..] == m;
      ImageIs(ps[n]);
      SendPacket(ch, pkt);
      FramesAppend(ps[..n], ps[n]);
      assert ps[..n + 1] == ps[..n] + [ps[n]];
    }
    assert ps[..|ps|] == ps;
  }

  lemma FramesOfNone()
    ensures Frames([]) == []
  {
  }

  /** One read of a smooth run: its packets come next, and the rest of the run is smooth. */
  method ReadOnce(r: Receiver, recv: seq<byte>, ghost rest: seq<byte>, ghost last: Rx, ghost ps: seq<Packet>)
    returns (got: seq<Packet>, panic: bool)
    requires r.Valid() && r.Abs().Valid(r.data.Length)
    requires Smooth(r.data.Length, r.Abs(), recv + rest, last, ps)
    modifies r, r.data
    ensures r.Valid() && !panic && got <= ps && r.Abs().Valid(r.data.Length)
    ensures Smooth(r.data.Length, r.Abs(), rest, last, ps[|got|..])
  {
    hide Smooth, Rx.Valid, Chunk, Unswapped;
    SmoothCut(r.data.Length, r.Abs(), recv, rest, last, ps);
    got, panic := r.Process(recv);
  }

  /**
    What the sender sends, the receiver receives: exactly the same packets in the same order,
    however the channel splits its writes and the receiver its reads.
  */
  method Transfer(ch: Channel, r: Receiver, ps: seq<Packet>) returns (packets: seq<Packet>, panic: bool)
    requires ch.sent == [] && r.Valid() && r.Abs() == Rx(RxStart, [])
    requires forall p :: p in ps ==> p.Fits() && |p.content| + HEAD_LEN + CRC_LEN <= r.data.Length
    modifies ch, r, r.data
    ensures packets == ps && !panic && r.Valid()
  {
    hide Frame, Frames, Smooth, Rx.Valid, Chunk, Unswapped;
    SendAll(ch, ps);
    ghost var limit, last := r.data.Length, if ps == [] then Rx(RxStart, []) else Rx(RxRun, []);
    FramesSmooth(limit, r.Abs(), ps);
    var sent := ch.sent;
    var at := 0;
    packets, panic := [], false;
    while at < |sent|
      invariant at <= |sent| && r.Valid() && !panic && packets <= ps && r.Abs().Valid(limit)
      invariant Smooth(limit, r.Abs(), sent[at..], last, ps[|packets|..])
    {
      var n :| 0 < n <= |sent| - at;
      var recv := sent[at..at + n];
      assert sent[at..] == recv + sent[at + n..];
      var got;
      got, panic := ReadOnce(r, recv, sent[at + n..], last, ps[|packets|..]);
      assert ps[|packets|..][|got|..] == ps[|packets| + |got|..];
      packets := packets + got;
      at := at + n;
    }
    SmoothNothing(limit, r.Abs(), sent[at..], last, ps[|packets|..]);
  }

  lemma SmoothNothing(limit: nat, s: Rx, d: seq<byte>, t: Rx, ps: seq<Packet>)
    requires s.Valid(limit) && Smooth(limit, s, d, t, ps) && d == []
    ensures ps == []
  {
  }
}
