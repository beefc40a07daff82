/**
  The packet framing of boot_fdl.c: octet stuffing with a flag at both ends, as in section 4.2
  of RFC 1662, around a big-endian header, the content and a checksum.
*/
module Hdlc {

  import opened Checksum

  const FLAG: byte := 0x7E
  const ESCAPE: byte := 0x7D
  const ESCAPE_MASK: nat := 0x20
  const HEAD_LEN: nat := 4
  const CRC_LEN: nat := 2

  datatype Packet = Packet(kind: nat, content: seq<byte>)
  {
    /** Both header fields are 16 bits wide. */
    predicate Fits() { kind < M16 && |content| < M16 }
  }

  /** b | 0x20 */
  function SetMask(b: byte): byte {
    if b / ESCAPE_MASK % 2 == 0 then b + ESCAPE_MASK else b
  }

  /** b & ~0x20 */
  function ClearMask(b: byte): byte {
    if b / ESCAPE_MASK % 2 == 0 then b else b - ESCAPE_MASK
  }

  // ----- what the sender emits -----

  function Stuff(b: byte): (s: seq<byte>)
    ensures 1 <= |s| <= 2
  {
    if b == FLAG || b == ESCAPE then [ESCAPE, ClearMask(b)] else [b]
  }

  function StuffAll(d: seq<byte>): seq<byte>
    decreases |d|
  {
    if d == [] then [] else Stuff(d[0]) + StuffAll(d[1..])
  }

  /** The bytes that the checksum covers. */
  function Body(p: Packet): (d: seq<byte>)
    requires p.Fits()
    ensures |d| == HEAD_LEN + |p.content|
  {
    Be16(p.kind) + Be16(|p.content|) + p.content
  }

  /** Body and checksum, before stuffing. */
  function Payload(p: Packet): (d: seq<byte>)
    requires p.Fits()
    ensures |d| == HEAD_LEN + |p.content| + CRC_LEN
  {
    Body(p) + Le16(Internet(Body(p)))
  }

  function Frame(p: Packet): seq<byte>
    requires p.Fits()
  {
    [FLAG] + StuffAll(Payload(p)) + [FLAG]
  }

  function Frames(ps: seq<Packet>): seq<byte>
    requires forall p :: p in ps ==> p.Fits()
    decreases |ps|
  {
    if ps == [] then [] else Frame(ps[0]) + Frames(ps[1..])
  }

  lemma {:induction false} StuffConcat(a: seq<byte>, b: seq<byte>)
    ensures StuffAll(a + b) == StuffAll(a) + StuffAll(b)
    decreases |a|
  {
    if a == [] {
      assert a + b == b;
    } else {
      StuffConcat(a[1..], b);
      assert (a + b)[1..] == a[1..] + b;
      assert Stuff(a[0]) + StuffAll(a[1..]) + StuffAll(b) == Stuff(a[0]) + (StuffAll(a[1..]) + StuffAll(b));
    }
  }

  // ----- what the receiver does with one byte -----

  datatype RxState = RxStart | RxRun | RxEscape | RxEnd

  /** The parser, with the received bytes as they were sent. */
  datatype Rx = Rx(state: RxState, raw: seq<byte>)
  {
    /** END is entered when the length matches the size in the header. */
    ghost predicate Valid(limit: nat)
    {
      && |raw| <= limit
      && (state == RxEnd ==> |raw| >= HEAD_LEN + CRC_LEN && Complete(raw))
    }

    /** The trailing checksum matches. */
    ghost predicate Intact()
      requires |raw| >= HEAD_LEN + CRC_LEN
    {
      LeValue(raw[|raw| - 2], raw[|raw| - 1]) == Internet(raw[..|raw| - 2])
    }
  }

  datatype Outcome = Quiet | Deliver(packet: Packet) | Panic | Overflow

  function SizeField(raw: seq<byte>): nat
    requires |raw| >= HEAD_LEN
  {
    LeValue(raw[3], raw[2])
  }

  predicate Complete(raw: seq<byte>) {
    |raw| >= HEAD_LEN + CRC_LEN && SizeField(raw) == |raw| - HEAD_LEN - CRC_LEN
  }

  /** The packet that received bytes stand for. */
  function Parsed(raw: seq<byte>): Packet
    requires |raw| >= HEAD_LEN + CRC_LEN
  {
    Packet(LeValue(raw[1], raw[0]), raw[HEAD_LEN..|raw| - CRC_LEN])
  }

  ghost function Step(limit: nat, s: Rx, b: byte): (r: (Rx, Outcome))
    requires s.Valid(limit)
    ensures r.0.Valid(limit)
  {
    match s.state
    case RxStart => (if b == FLAG then Rx(RxRun, []) else s, Quiet)
    case RxEnd =>
      if b != FLAG then (Rx(RxStart, s.raw), Quiet)
      else if s.Intact() then (Rx(RxRun, []), Deliver(Parsed(s.raw)))
      else (Rx(RxRun, s.raw), Panic)
    case _ =>
      if b == FLAG then (Rx(RxRun, []), Quiet)
      else if b == ESCAPE && s.state == RxRun then (Rx(RxEscape, s.raw), Quiet)
      else if |s.raw| >= limit then (Rx(RxStart, []), Overflow)
      else
        var raw := s.raw + [if s.state == RxEscape then SetMask(b) else b];
        (Rx(if Complete(raw) then RxEnd else RxRun, raw), Quiet)
  }

  /** What a read chunk does: a panic stops everything, an overflow drops the rest of the chunk. */
  datatype Fed = Fed(rx: Rx, packets: seq<Packet>, panic: bool)

  ghost function Chunk(limit: nat, s: Rx, d: seq<byte>): (r: Fed)
    requires s.Valid(limit)
    ensures r.rx.Valid(limit)
    decreases |d|
  {
    if d == [] then Fed(s, [], false)
    else
      var (next, outcome) := Step(limit, s, d[0]);
      match outcome
      case Panic => Fed(next, [], true)
      case Overflow => Fed(next, [], false)
      case Quiet => Chunk(limit, next, d[1..])
      case Deliver(p) =>
        var rest := Chunk(limit, next, d[1..]);
        Fed(rest.rx, [p] + rest.packets, rest.panic)
  }

  /** A sequence of reads. */
  ghost function Chunks(limit: nat, s: Rx, cs: seq<seq<byte>>): (r: Fed)
    requires s.Valid(limit)
    ensures r.rx.Valid(limit)
    decreases |cs|
  {
    if cs == [] then Fed(s, [], false)
    else
      var first := Chunk(limit, s, cs[0]);
      if first.panic then first
      else
        var rest := Chunks(limit, first.rx, cs[1..]);
        Fed(rest.rx, first.packets + rest.packets, rest.panic)
  }

  function Flatten(cs: seq<seq<byte>>): seq<byte>
    decreases |cs|
  {
    if cs == [] then [] else cs[0] + Flatten(cs[1..])
  }

  // ----- runs without panic and overflow do not depend on the chunking -----

  /** d takes the parser from s to t, delivering ps, without panic and without overflow. */
  ghost predicate Smooth(limit: nat, s: Rx, d: seq<byte>, t: Rx, ps: seq<Packet>)
    requires s.Valid(limit)
    decreases |d|
  {
    if d == [] then t == s && ps == []
    else
      var (next, outcome) := Step(limit, s, d[0]);
      match outcome
      case Quiet => Smooth(limit, next, d[1..], t, ps)
      case Deliver(p) => ps != [] && ps[0] == p && Smooth(limit, next, d[1..], t, ps[1..])
      case _ => false
  }

  lemma {:induction false} SmoothConcat(limit: nat, s: Rx, a: seq<byte>, t: Rx, ps: seq<Packet>,
                                        b: seq<byte>, u: Rx, qs: seq<Packet>)
    requires s.Valid(limit) && Smooth(limit, s, a, t, ps)
    requires t.Valid(limit) && Smooth(limit, t, b, u, qs)
    ensures Smooth(limit, s, a + b, u, ps + qs)
    decreases |a|
  {
    hide Step;
    if a == [] {
      assert a + b == b && ps + qs == qs;
    } else {
      assert (a + b)[1..] == a[1..] + b;
      var (next, outcome) := Step(limit, s, a[0]);
      match outcome
      case Quiet => SmoothConcat(limit, next, a[1..], t, ps, b, u, qs);
      case Deliver(_) =>
        SmoothConcat(limit, next, a[1..], t, ps[1..], b, u, qs);
        assert (ps + qs)[1..] == ps[1..] + qs;
    }
  }

  /** Cutting a smooth run after its first part. */
  lemma {:induction false} SmoothCut(limit: nat, s: Rx, a: seq<byte>, b: seq<byte>, u: Rx, ps: seq<Packet>)
    requires s.Valid(limit) && Smooth(limit, s, a + b, u, ps)
    ensures var f := Chunk(limit, s, a);
            !f.panic && f.packets <= ps && Smooth(limit, f.rx, b, u, ps[|f.packets|..])
    decreases |a|
  {
    if a == [] {
      assert a + b == b;
    } else {
      assert (a + b)[1..] == a[1..] + b;
      var (next, outcome) := Step(limit, s, a[0]);
      match outcome
      case Quiet => SmoothCut(limit, next, a[1..], b, u, ps);
      case Deliver(p) =>
        SmoothCut(limit, next, a[1..], b, u, ps[1..]);
        var f := Chunk(limit, next, a[1..]);
        assert ps == [p] + ps[1..];
        assert ps[1..][|f.packets|..] == ps[1 + |f.packets|..];
    }
  }

  lemma {:induction false} SmoothChunks(limit: nat, s: Rx, cs: seq<seq<byte>>, t: Rx, ps: seq<Packet>)
    requires s.Valid(limit) && Smooth(limit, s, Flatten(cs), t, ps)
    ensures Chunks(limit, s, cs) == Fed(t, ps, false)
    decreases |cs|
  {
    if cs != [] {
      SmoothCut(limit, s, cs[0], Flatten(cs[1..]), t, ps);
      var f := Chunk(limit, s, cs[0]);
      SmoothChunks(limit, f.rx, cs[1..], t, ps[|f.packets|..]);
    }
  }

  // ----- the receiver undoes the sender -----

  /** A stuffed byte is taken back as one byte. */
  lemma StuffedByte(limit: nat, raw: seq<byte>, b: byte)
    requires |raw| < limit
    ensures Smooth(limit, Rx(RxRun, raw), Stuff(b), Rx(if Complete(raw + [b]) then RxEnd else RxRun, raw + [b]), [])
  {
    var s := Rx(RxRun, raw);
    if b == FLAG || b == ESCAPE {
      assert SetMask(ClearMask(b)) == b && ClearMask(b) != FLAG;
      assert Stuff(b)[1..] == [ClearMask(b)] && Stuff(b)[1..][1..] == [];
    } else {
      assert Stuff(b)[1..] == [];
    }
  }

  lemma OnlyWholeIsComplete(p: Packet, n: nat)
    requires p.Fits() && n <= |Payload(p)|
    ensures Complete(Payload(p)[..n]) <==> n == |Payload(p)|
  {
    var d := Payload(p);
    assert d[2] == Be16(|p.content|)[0] && d[3] == Be16(|p.content|)[1];
    if n >= HEAD_LEN {
      assert d[..n][2] == d[2] && d[..n][3] == d[3];
    }
  }

  lemma {:induction false} PayloadSmooth(limit: nat, p: Packet, n: nat)
    requires p.Fits() && n < |Payload(p)| <= limit
    ensures Smooth(limit, Rx(RxRun, Payload(p)[..n]), StuffAll(Payload(p)[n..]), Rx(RxEnd, Payload(p)), [])
    decreases |Payload(p)| - n
  {
    hide Payload, Stuff, Complete, Smooth;
    var d := Payload(p);
    var b := d[n];
    var none: seq<Packet> := [];
    assert none + none == none;
    StuffedByte(limit, d[..n], b);
    assert d[..n] + [b] == d[..n + 1];
    OnlyWholeIsComplete(p, n + 1);
    OnlyWholeIsComplete(p, |d|);
    assert d[..|d|] == d;
    assert d[n..][1..] == d[n + 1..];
    if n + 1 == |d| {
      SmoothEmpty(limit, Rx(RxEnd, d));
      SmoothConcat(limit, Rx(RxRun, d[..n]), Stuff(b), Rx(RxEnd, d), [], [], Rx(RxEnd, d), []);
      assert Stuff(b) + [] == StuffAll(d[n..]);
    } else {
      PayloadSmooth(limit, p, n + 1);
      SmoothConcat(limit, Rx(RxRun, d[..n]), Stuff(b), Rx(RxRun, d[..n + 1]), [],
                   StuffAll(d[n + 1..]), Rx(RxEnd, d), []);
    }
  }

  lemma SmoothEmpty(limit: nat, s: Rx)
    requires s.Valid(limit)
    ensures Smooth(limit, s, [], s, [])
  {
  }

  /** The complete payload is intact, and stands for the packet. */
  lemma PayloadParses(p: Packet)
    requires p.Fits()
    ensures Complete(Payload(p)) && Rx(RxEnd, Payload(p)).Intact() && Parsed(Payload(p)) == p
  {
    var d := Payload(p);
    OnlyWholeIsComplete(p, |d|);
    assert d[..|d|] == d;
    assert d[..|d| - 2] == Body(p);
    assert d[HEAD_LEN..|d| - CRC_LEN] == p.content;
    var tail := Le16(Internet(Body(p)));
    assert d[|d| - 2] == tail[0] && d[|d| - 1] == tail[1];
    assert d[0] == Be16(p.kind)[0] && d[1] == Be16(p.kind)[1];
    hide Internet;
  }

  /** A flag starts over, unless it ends a packet. */
  lemma FlagSmooth(limit: nat, s: Rx)
    requires s.Valid(limit) && (s.state == RxEnd ==> s.Intact())
    ensures Smooth(limit, s, [FLAG], Rx(RxRun, []), if s.state == RxEnd then [Parsed(s.raw)] else [])
  {
    assert [FLAG][1..] == [];
    SmoothEmpty(limit, Rx(RxRun, []));
  }

  /** From any state but END with a bad checksum, a frame is delivered, after what END was holding. */
  lemma FrameSmooth(limit: nat, s: Rx, p: Packet)
    requires s.Valid(limit) && (s.state == RxEnd ==> s.Intact())
    requires p.Fits() && |p.content| + HEAD_LEN + CRC_LEN <= limit
    ensures Smooth(limit, s, Frame(p), Rx(RxRun, []), (if s.state == RxEnd then [Parsed(s.raw)] else []) + [p])
  {
    hide Payload, Complete, Rx.Intact, Smooth, Parsed;
    var d := Payload(p);
    var held := if s.state == RxEnd then [Parsed(s.raw)] else [];
    FlagSmooth(limit, s);
    PayloadSmooth(limit, p, 0);
    assert d[..0] == [] && d[0..] == d;
    PayloadParses(p);
    FlagSmooth(limit, Rx(RxEnd, d));
    SmoothConcat(limit, s, [FLAG], Rx(RxRun, []), held, StuffAll(d), Rx(RxEnd, d), []);
    SmoothConcat(limit, s, [FLAG] + StuffAll(d), Rx(RxEnd, d), held + [], [FLAG], Rx(RxRun, []), [p]);
    assert held + [] == held;
  }

  lemma {:induction false} FramesSmooth(limit: nat, s: Rx, ps: seq<Packet>)
    requires s.Valid(limit) && s.state != RxEnd
    requires forall p :: p in ps ==> p.Fits() && |p.content| + HEAD_LEN + CRC_LEN <= limit
    ensures Smooth(limit, s, Frames(ps), if ps == [] then s else Rx(RxRun, []), ps)
    decreases |ps|
  {
    hide Frame;
    if ps == [] {
      SmoothEmpty(limit, s);
    } else {
      FrameSmooth(limit, s, ps[0]);
      FramesSmooth(limit, Rx(RxRun, []), ps[1..]);
      assert [ps[0]] + ps[1..] == ps && [] + [ps[0]] == [ps[0]];
      SmoothConcat(limit, s, Frame(ps[0]), Rx(RxRun, []), [ps[0]], Frames(ps[1..]), Rx(RxRun, []), ps[1..]);
    }
  }

  /**
    Round trip: however the sent frames are cut into reads, exactly the sent packets are
    delivered, in order, and the receiver is ready for the next frame.
  */
  lemma RoundTrip(limit: nat, ps: seq<Packet>, cs: seq<seq<byte>>)
    requires forall p :: p in ps ==> p.Fits() && |p.content| + HEAD_LEN + CRC_LEN <= limit
    requires Flatten(cs) == Frames(ps)
    ensures Chunks(limit, Rx(RxStart, []), cs) == Fed(Rx(if ps == [] then RxStart else RxRun, []), ps, false)
  {
    FramesSmooth(limit, Rx(RxStart, []), ps);
    SmoothChunks(limit, Rx(RxStart, []), cs, Rx(if ps == [] then RxStart else RxRun, []), ps);
  }

  /**
    Resynchronisation: whatever was received before, the next whole frame is delivered, and it
    is the last packet delivered, exactly if the receiver does not hold a packet with a bad checksum.
  */
  lemma Resynchronises(limit: nat, s: Rx, p: Packet, cs: seq<seq<byte>>)
    requires s.Valid(limit) && p.Fits() && |p.content| + HEAD_LEN + CRC_LEN <= limit
    requires Flatten(cs) == Frame(p)
    ensures (s.state == RxEnd ==> s.Intact())
       <==> var f := Chunks(limit, s, cs);
            !f.panic && f.rx == Rx(RxRun, []) && f.packets != [] && f.packets[|f.packets| - 1] == p
  {
    if s.state == RxEnd ==> s.Intact() {
      FrameSmooth(limit, s, p);
      var ps := (if s.state == RxEnd then [Parsed(s.raw)] else []) + [p];
      SmoothChunks(limit, s, cs, Rx(RxRun, []), ps);
    } else {
      PanicFirst(limit, s, cs, Frame(p));
    }
  }

  lemma {:induction false} PanicFirst(limit: nat, s: Rx, cs: seq<seq<byte>>, d: seq<byte>)
    requires s.Valid(limit) && s.state == RxEnd && !s.Intact()
    requires Flatten(cs) == d && d != [] && d[0] == FLAG
    ensures Chunks(limit, s, cs).panic
    decreases |cs|
  {
    if cs[0] == [] {
      assert Flatten(cs) == Flatten(cs[1..]);
      PanicFirst(limit, s, cs[1..], d);
    } else {
      assert cs[0][0] == FLAG;
    }
  }

  // ----- only good frames are delivered -----

  /** Bytes that are complete and intact are the payload of the packet they stand for. */
  lemma IntactIsPayload(raw: seq<byte>)
    requires Complete(raw) && Rx(RxEnd, raw).Intact()
    ensures Parsed(raw).Fits() && raw == Payload(Parsed(raw))
  {
    var p, n := Parsed(raw), |raw|;
    HeaderBytes(raw);
    assert raw[..n - 2] == Body(p) by {
      assert raw[..n - 2] == [raw[0], raw[1]] + [raw[2], raw[3]] + raw[HEAD_LEN..n - 2];
    }
    var sum := Internet(raw[..n - 2]);
    hide Internet;
    LeBytes(raw[n - 2], raw[n - 1]);
    assert raw == raw[..n - 2] + [raw[n - 2], raw[n - 1]];
  }

  lemma LeBytes(lo: byte, hi: byte)
    ensures LeValue(lo, hi) < M16 && Le16(LeValue(lo, hi)) == [lo, hi] && Be16(LeValue(lo, hi)) == [hi, lo]
  {
  }

  lemma HeaderBytes(raw: seq<byte>)
    requires Complete(raw)
    ensures Parsed(raw).Fits() && Be16(Parsed(raw).kind) == [raw[0], raw[1]]
    ensures Be16(|Parsed(raw).content|) == [raw[2], raw[3]]
  {
    LeBytes(raw[1], raw[0]);
    LeBytes(raw[3], raw[2]);
  }

  /** A byte delivers a packet if and only if it is a flag behind the packet's whole payload. */
  lemma DeliversExactly(limit: nat, s: Rx, b: byte, p: Packet)
    requires s.Valid(limit)
    ensures Step(limit, s, b).1 == Deliver(p)
       <==> s.state == RxEnd && b == FLAG && p.Fits() && s.raw == Payload(p)
  {
    hide Payload, Rx.Intact, Complete, Parsed;
    if s.state == RxEnd && b == FLAG {
      if p.Fits() && s.raw == Payload(p) {
        PayloadParses(p);
      }
      if s.Intact() {
        IntactIsPayload(s.raw);
      }
    }
  }

  /** What bytes without a flag stand for, and whether they end in an escape. */
  function Unstuffed(d: seq<byte>): (seq<byte>, bool)
    decreases |d|
  {
    if d == [] then ([], false)
    else
      var (raw, escaped) := Unstuffed(d[..|d| - 1]);
      var b := d[|d| - 1];
      if b == ESCAPE && !escaped then (raw, true) else (raw + [if escaped then SetMask(b) else b], false)
  }

  /** Somewhere in the stream the payload of the packet stands between two flags. */
  ghost predicate Framed(d: seq<byte>, p: Packet) {
    p.Fits() && exists i, j :: 0 <= i < j < |d| && Between(d, i, j, Payload(p))
  }

  ghost predicate Between(d: seq<byte>, i: nat, j: nat, raw: seq<byte>)
    requires i < j < |d|
  {
    d[i] == FLAG == d[j] && FLAG !in d[i + 1..j] && Unstuffed(d[i + 1..j]) == (raw, false)
  }

  /** The bytes behind the flag at i stand for raw. */
  ghost predicate Open(d: seq<byte>, i: nat, raw: seq<byte>, escaped: bool) {
    i < |d| && d[i] == FLAG && FLAG !in d[i + 1..] && Unstuffed(d[i + 1..]) == (raw, escaped)
  }

  ghost predicate Opened(d: seq<byte>, raw: seq<byte>, escaped: bool) {
    exists i: nat :: Open(d, i, raw, escaped)
  }

  /** What the parser holds was received since a flag. */
  ghost predicate Since(d: seq<byte>, s: Rx) {
    s.state != RxStart ==> Opened(d, s.raw, s.state == RxEscape)
  }

  lemma UnstuffedMore(d: seq<byte>, b: byte)
    ensures Unstuffed(d + [b])
         == (var (raw, escaped) := Unstuffed(d);
             if b == ESCAPE && !escaped then (raw, true) else (raw + [if escaped then SetMask(b) else b], false))
  {
    assert (d + [b])[..|d|] == d;
  }

  /** A flag opens a frame. */
  lemma SinceFlag(d: seq<byte>)
    ensures Since(d + [FLAG], Rx(RxRun, []))
  {
    var e := d + [FLAG];
    assert e[|d| + 1..] == [];
    assert Open(e, |d|, [], false);
  }

  /** A byte inside a frame. */
  lemma OpenMore(d: seq<byte>, i: nat, raw: seq<byte>, escaped: bool, b: byte)
    requires b != FLAG && Open(d, i, raw, escaped)
    ensures b == ESCAPE && !escaped ==> Open(d + [b], i, raw, true)
    ensures b != ESCAPE || escaped ==> Open(d + [b], i, raw + [if escaped then SetMask(b) else b], false)
  {
    assert (d + [b])[i + 1..] == d[i + 1..] + [b];
    UnstuffedMore(d[i + 1..], b);
    hide Unstuffed, SetMask;
  }

  lemma SinceByte(d: seq<byte>, raw: seq<byte>, escaped: bool, b: byte)
    requires b != FLAG && Since(d, Rx(if escaped then RxEscape else RxRun, raw))
    ensures b == ESCAPE && !escaped ==> Since(d + [b], Rx(RxEscape, raw))
    ensures b != ESCAPE || escaped ==>
              var more := raw + [if escaped then SetMask(b) else b];
              Since(d + [b], Rx(RxRun, more)) && Since(d + [b], Rx(RxEnd, more))
  {
    hide Open, SetMask;
    var i: nat :| Open(d, i, raw, escaped);
    OpenMore(d, i, raw, escaped, b);
  }

  /** The flag behind a frame. */
  lemma SinceEnd(d: seq<byte>, p: Packet)
    requires p.Fits() && Since(d, Rx(RxEnd, Payload(p)))
    ensures Framed(d + [FLAG], p)
  {
    hide Unstuffed, Payload;
    var i: nat :| Open(d, i, Payload(p), false);
    assert (d + [FLAG])[i + 1..|d|] == d[i + 1..];
    assert Between(d + [FLAG], i, |d|, Payload(p));
  }

  lemma SinceMore(limit: nat, d: seq<byte>, s: Rx, b: byte)
    requires s.Valid(limit) && Since(d, s)
    ensures Step(limit, s, b).1 != Panic ==> Since(d + [b], Step(limit, s, b).0)
    ensures Step(limit, s, b).1.Deliver? ==> Framed(d + [b], Step(limit, s, b).1.packet)
  {
    hide Framed, SetMask, Complete, Rx.Intact, Parsed, Payload;
    SinceFlag(d);
    if b == FLAG && s.state == RxEnd {
      var outcome := Step(limit, s, b).1;
      if outcome.Deliver? {
        DeliversExactly(limit, s, b, outcome.packet);
        SinceEnd(d, outcome.packet);
      }
    } else if b != FLAG && s.state in {RxRun, RxEscape} {
      SinceByte(d, s.raw, s.state == RxEscape, b);
    }
    hide Since;
  }

  lemma FramedMore(d: seq<byte>, more: seq<byte>, p: Packet)
    requires Framed(d, p)
    ensures Framed(d + more, p)
  {
    var i, j :| 0 <= i < j < |d| && Between(d, i, j, Payload(p));
    assert (d + more)[i + 1..j] == d[i + 1..j];
    assert Between(d + more, i, j, Payload(p));
  }

  lemma {:induction false} ChunkFramed(limit: nat, before: seq<byte>, s: Rx, d: seq<byte>)
    requires s.Valid(limit) && Since(before, s)
    ensures var f := Chunk(limit, s, d);
            && (forall p :: p in f.packets ==> Framed(before + d, p))
            && (!f.panic ==> Since(before + d, f.rx))
    decreases |d|
  {
    if d == [] {
      assert before + d == before;
    } else {
      var (next, outcome) := Step(limit, s, d[0]);
      SinceMore(limit, before, s, d[0]);
      assert before + [d[0]] + d[1..] == before + d;
      hide Step, Framed;
      match outcome
      case Panic =>
      case Overflow =>
        assert next.state == RxStart by {
          OverflowStarts(limit, s, d[0]);
        }
      case Quiet => ChunkFramed(limit, before + [d[0]], next, d[1..]);
      case Deliver(p) =>
        ChunkFramed(limit, before + [d[0]], next, d[1..]);
        FramedMore(before + [d[0]], d[1..], p);
    }
  }

  lemma OverflowStarts(limit: nat, s: Rx, b: byte)
    requires s.Valid(limit) && Step(limit, s, b).1 == Overflow
    ensures Step(limit, s, b).0.state == RxStart
  {
  }

  /**
    Whatever bytes arrive, in whatever reads: every packet that is delivered stands in the stream
    between two flags, whole, with its size and its checksum.
  */
  lemma {:induction false} OnlyFramesDelivered(limit: nat, before: seq<byte>, s: Rx, cs: seq<seq<byte>>)
    requires s.Valid(limit) && Since(before, s)
    ensures forall p :: p in Chunks(limit, s, cs).packets ==> Framed(before + Flatten(cs), p)
    decreases |cs|
  {
    hide Framed, Since;
    if cs != [] {
      ChunkFramed(limit, before, s, cs[0]);
      var first := Chunk(limit, s, cs[0]);
      assert before + cs[0] + Flatten(cs[1..]) == before + Flatten(cs);
      forall p | p in first.packets
        ensures Framed(before + Flatten(cs), p)
      {
        FramedMore(before + cs[0], Flatten(cs[1..]), p);
      }
      if !first.panic {
        OnlyFramesDelivered(limit, before + cs[0], first.rx, cs[1..]);
      }
    }
  }

  lemma ExamplePayload()
    ensures Packet(0x0102, [0x7E]).Fits()
    ensures Payload(Packet(0x0102, [0x7E])) == [0x01, 0x02, 0x00, 0x01, 0x7E, 0x80, 0xFC]
  {
    var d := [0x01, 0x02, 0x00, 0x01, 0x7E];
    assert Body(Packet(0x0102, [0x7E])) == d;
    assert d[2..] == [0x00, 0x01, 0x7E] && d[2..][2..] == [0x7E];
    assert OnesSum([0x7E]) == 0x7E && OnesSum([0x00, 0x01, 0x7E]) == 0x17E && OnesSum(d) == 0x37F;
  }

  /** Bytes that are sent as they are. */
  lemma {:induction false} StuffPlain(d: seq<byte>)
    requires FLAG !in d && ESCAPE !in d
    ensures StuffAll(d) == d
    decreases |d|
  {
    if d != [] {
      StuffPlain(d[1..]);
      assert d == [d[0]] + d[1..];
    }
  }

  lemma StuffedFlag()
    ensures StuffAll([0x7E]) == [0x7D, 0x5E]
  {
    assert [0x7E][1..] == [] && Stuff(0x7E) == [0x7D, 0x5E];
  }

  /** Plain bytes around a flag. */
  lemma StuffFlag(a: seq<byte>, b: seq<byte>)
    requires FLAG !in a && ESCAPE !in a && FLAG !in b && ESCAPE !in b
    ensures StuffAll(a + [0x7E] + b) == a + [0x7D, 0x5E] + b
  {
    StuffPlain(a);
    StuffPlain(b);
    StuffedFlag();
    hide StuffAll;
    StuffConcat(a, [0x7E]);
    StuffConcat(a + [0x7E], b);
  }

  /** The bytes of one frame: big-endian header, little-endian checksum, and a stuffed flag. */
  lemma ExampleFrame()
    ensures Packet(0x0102, [0x7E]).Fits()
    ensures Frame(Packet(0x0102, [0x7E])) == [0x7E, 0x01, 0x02, 0x00, 0x01, 0x7D, 0x5E, 0x80, 0xFC, 0x7E]
  {
    ExamplePayload();
    hide Payload, StuffAll, Stuff;
    var a, b := [0x01, 0x02, 0x00, 0x01], [0x80, 0xFC];
    StuffFlag(a, b);
    assert a + [0x7E] + b == [0x01, 0x02, 0x00, 0x01, 0x7E, 0x80, 0xFC];
    assert a + [0x7D, 0x5E] + b == [0x01, 0x02, 0x00, 0x01, 0x7D, 0x5E, 0x80, 0xFC];
  }

  // ----- a bad checksum can be received -----

  function Zeros(n: nat): (d: seq<byte>)
    ensures |d| == n
  {
    seq(n, _ => 0)
  }

  /** Received zeros, and one more. */
  lemma ZeroTaken(limit: nat, n: nat)
    requires n < 6 <= limit
    ensures Step(limit, Rx(RxRun, Zeros(n)), 0) == (Rx(if n == 5 then RxEnd else RxRun, Zeros(n + 1)), Quiet)
    ensures Zeros(6 - n) == [0] + Zeros(5 - n)
  {
    assert Zeros(n) + [0] == Zeros(n + 1);
  }

  lemma SmoothFirst(limit: nat, s: Rx, b: byte, next: Rx, d: seq<byte>, t: Rx)
    requires s.Valid(limit) && Step(limit, s, b) == (next, Quiet) && Smooth(limit, next, d, t, [])
    ensures Smooth(limit, s, [b] + d, t, [])
  {
    hide Step;
    assert ([b] + d)[1..] == d;
  }

  /** Six zeros after a flag are taken as they are. */
  lemma {:induction false} ZerosSmooth(limit: nat, n: nat)
    requires n < 6 <= limit
    ensures Smooth(limit, Rx(RxRun, Zeros(n)), Zeros(6 - n), Rx(RxEnd, Zeros(6)), [])
    decreases 6 - n
  {
    hide Step, Smooth, Zeros;
    ZeroTaken(limit, n);
    if n == 5 {
      SmoothEmpty(limit, Rx(RxEnd, Zeros(6)));
      assert Zeros(0) == [];
    } else {
      ZerosSmooth(limit, n + 1);
    }
    SmoothFirst(limit, Rx(RxRun, Zeros(n)), 0, Rx(if n == 5 then RxEnd else RxRun, Zeros(n + 1)), Zeros(5 - n),
                Rx(RxEnd, Zeros(6)));
  }

  lemma ZerosBad()
    ensures Rx(RxEnd, Zeros(6)).Valid(6) && !Rx(RxEnd, Zeros(6)).Intact()
  {
    assert Zeros(6)[..4] == [0, 0, 0, 0] && [0, 0, 0, 0][2..] == [0, 0] && [0, 0][2..] == [];
    assert OnesSum([0, 0]) == 0;
  }

  /** A read that is smooth, and what comes after it. */
  lemma ReadFirst(limit: nat, s: Rx, a: seq<byte>, t: Rx, cs: seq<seq<byte>>)
    requires s.Valid(limit) && t.Valid(limit) && Smooth(limit, s, a, t, [])
    ensures Chunks(limit, s, [a] + cs).panic <==> Chunks(limit, t, cs).panic
  {
    hide Step;
    assert a + [] == a && ([a] + cs)[1..] == cs;
    SmoothCut(limit, s, a, [], t, []);
  }

  /** A flag and six zeros are held as a packet with a bad checksum. */
  lemma BadReceived(limit: nat)
    requires 6 <= limit
    ensures Smooth(limit, Rx(RxStart, []), [FLAG] + Zeros(6), Rx(RxEnd, Zeros(6)), [])
    ensures Rx(RxEnd, Zeros(6)).Valid(limit) && !Rx(RxEnd, Zeros(6)).Intact()
  {
    ZerosBad();
    hide Step, Smooth, Rx.Intact, Complete;
    FlagSmooth(limit, Rx(RxStart, []));
    ZerosSmooth(limit, 0);
    assert Zeros(0) == [];
    var none: seq<Packet> := [];
    assert none + none == none;
    SmoothConcat(limit, Rx(RxStart, []), [FLAG], Rx(RxRun, []), none, Zeros(6), Rx(RxEnd, Zeros(6)), none);
  }

  /** Then any frame causes a panic. */
  lemma ExampleBadChecksum(limit: nat, p: Packet, cs: seq<seq<byte>>)
    requires 6 <= limit && p.Fits() && Flatten(cs) == Frame(p)
    ensures Chunks(limit, Rx(RxStart, []), [[FLAG] + Zeros(6)] + cs).panic
  {
    assert Frame(p)[0] == FLAG;
    hide Step, Smooth, Chunks, Frame, Flatten, Zeros, Rx.Intact, Complete;
    BadReceived(limit);
    ReadFirst(limit, Rx(RxStart, []), [FLAG] + Zeros(6), Rx(RxEnd, Zeros(6)), cs);
    PanicFirst(limit, Rx(RxEnd, Zeros(6)), cs, Frame(p));
  }
}
