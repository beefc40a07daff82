/**
  The length-prefixed packet stream of boot_pdl.c.
*/
module Pdl {

  import opened Checksum
  import opened Words

  const TAG: byte := 0xAE
  const HOST_FLOWID: byte := 0xFF
  const HEADER: nat := 8
  const COMMAND: nat := 12

  /** The four bytes of a 32-bit number, least significant first. */
  function Le32(n: nat): (s: seq<byte>)
    requires n < TWO32
    ensures |s| == 4
  {
    Le16(n % M16) + Le16(n / M16)
  }

  function Get32(s: seq<byte>, at: nat): (n: nat)
    requires at + 4 <= |s|
    ensures n < TWO32
  {
    LeValue(s[at], s[at + 1]) + M16 * LeValue(s[at + 2], s[at + 3])
  }

  lemma GetPut(n: nat, s: seq<byte>, at: nat)
    requires n < TWO32 && at + 4 <= |s| && s[at..at + 4] == Le32(n)
    ensures Get32(s, at) == n
  {
    var t := s[at..at + 4];
    assert t[0] == s[at] && t[1] == s[at + 1] && t[2] == s[at + 2] && t[3] == s[at + 3];
    assert t[0] == Le16(n % M16)[0] && t[1] == Le16(n % M16)[1];
    assert t[2] == Le16(n / M16)[0] && t[3] == Le16(n / M16)[1];
    LowHigh(n % M16);
    LowHigh(n / M16);
  }

  lemma LowHigh(n: nat)
    requires n < M16
    ensures LeValue(Le16(n)[0], Le16(n)[1]) == n
  {
  }

  // ----- the stream -----

  /** A packet as the host sends it: noise before it, and two bytes that only align the payload. */
  datatype Item = Item(noise: seq<byte>, res: seq<byte>, payload: seq<byte>)
  {
    predicate Fits(maxLen: nat) {
      TAG !in noise && |res| == 2 && 4 <= |payload| <= maxLen && |payload| < TWO32
    }

    function Header(): (h: seq<byte>)
      requires |res| == 2 && |payload| < TWO32
      ensures |h| == HEADER
    {
      [TAG] + Le32(|payload|) + [HOST_FLOWID] + res
    }
  }

  function Stream(maxLen: nat, items: seq<Item>): seq<byte>
    requires forall i :: i in items ==> i.Fits(maxLen)
    decreases |items|
  {
    if items == [] then []
    else
      assert items[0].Fits(maxLen);
      items[0].noise + (items[0].Header() + items[0].payload) + Stream(maxLen, items[1..])
  }

  function Payloads(items: seq<Item>): seq<seq<byte>>
    decreases |items|
  {
    if items == [] then [] else [items[0].payload] + Payloads(items[1..])
  }

  // ----- the parser, one byte at a time -----

  /** A header is kept when its flow is the host's and its size is acceptable. */
  predicate GoodHeader(maxLen: nat, raw: seq<byte>)
    requires |raw| >= HEADER
  {
    raw[5] == HOST_FLOWID && 4 <= Get32(raw, 1) <= maxLen
  }

  /** The bytes of a packet collected so far. */
  ghost predicate Partial(maxLen: nat, raw: seq<byte>)
  {
    && (|raw| > 0 ==> raw[0] == TAG)
    && (|raw| >= HEADER ==> GoodHeader(maxLen, raw) && |raw| < HEADER + Get32(raw, 1))
  }

  datatype Outcome = Collecting(raw: seq<byte>) | Delivered(payload: seq<byte>)

  ghost function Step(maxLen: nat, raw: seq<byte>, b: byte): (r: Outcome)
    requires Partial(maxLen, raw)
    ensures r.Collecting? ==> Partial(maxLen, r.raw)
  {
    if raw == [] && b != TAG then Collecting([])
    else
      var more := raw + [b];
      if |more| < HEADER then Collecting(more)
      else if |more| == HEADER then Collecting(if GoodHeader(maxLen, more) then more else [])
      else
        assert Get32(more, 1) == Get32(raw, 1);
        if |more| == HEADER + Get32(more, 1) then Delivered(more[HEADER..]) else Collecting(more)
  }

  /** The bytes left over after a run of bytes, and the payloads delivered. */
  datatype Fed = Fed(raw: seq<byte>, payloads: seq<seq<byte>>)

  ghost function Feed(maxLen: nat, raw: seq<byte>, d: seq<byte>): (r: Fed)
    requires Partial(maxLen, raw)
    ensures Partial(maxLen, r.raw)
    decreases |d|
  {
    if d == [] then Fed(raw, [])
    else
      match Step(maxLen, raw, d[0])
      case Collecting(more) => Feed(maxLen, more, d[1..])
      case Delivered(p) =>
        var rest := Feed(maxLen, [], d[1..]);
        Fed(rest.raw, [p] + rest.payloads)
  }

  /** The result does not depend on how the bytes are cut into reads. */
  lemma {:induction false} FeedConcat(maxLen: nat, raw: seq<byte>, a: seq<byte>, b: seq<byte>)
    requires Partial(maxLen, raw)
    ensures var f := Feed(maxLen, raw, a);
            var g := Feed(maxLen, f.raw, b);
            Feed(maxLen, raw, a + b) == Fed(g.raw, f.payloads + g.payloads)
    decreases |a|
  {
    hide Step, Partial;
    if a == [] {
      assert a + b == b;
      assert [] + Feed(maxLen, raw, b).payloads == Feed(maxLen, raw, b).payloads;
    } else {
      assert (a + b)[1..] == a[1..] + b;
      match Step(maxLen, raw, a[0])
      case Collecting(more) =>
        FeedConcat(maxLen, more, a[1..], b);
      case Delivered(p) =>
        NothingPartial(maxLen);
        FeedConcat(maxLen, [], a[1..], b);
        var f := Feed(maxLen, [], a[1..]);
        var g := Feed(maxLen, f.raw, b);
        assert [p] + (f.payloads + g.payloads) == [p] + f.payloads + g.payloads;
    }
  }

  lemma NothingPartial(maxLen: nat)
    ensures Partial(maxLen, [])
  {
  }

  lemma {:induction false} NoiseIgnored(maxLen: nat, noise: seq<byte>)
    requires TAG !in noise
    ensures Feed(maxLen, [], noise) == Fed([], [])
    decreases |noise|
  {
    if noise != [] {
      assert noise[0] in noise;
      NoiseIgnored(maxLen, noise[1..]);
    }
  }

  lemma HeaderParses(maxLen: nat, item: Item, d: seq<byte>)
    requires item.Fits(maxLen) && |d| >= HEADER && d[..HEADER] == item.Header()
    ensures GoodHeader(maxLen, d) && Get32(d, 1) == |item.payload| && d[0] == TAG
  {
    var h := item.Header();
    assert d[1..5] == d[..HEADER][1..5] == Le32(|item.payload|);
    GetPut(|item.payload|, d, 1);
    assert d[5] == d[..HEADER][5];
    assert d[0] == d[..HEADER][0];
  }

  /** From a proper prefix of a packet, its remaining bytes complete it. */
  lemma {:induction false} PacketCompletes(maxLen: nat, item: Item, n: nat)
    requires item.Fits(maxLen) && n < HEADER + |item.payload|
    ensures var d := item.Header() + item.payload;
            Partial(maxLen, d[..n]) && Feed(maxLen, d[..n], d[n..]) == Fed([], [item.payload])
    decreases HEADER + |item.payload| - n
  {
    hide Item.Header, GoodHeader, Partial, Step, Get32;
    var d := item.Header() + item.payload;
    PrefixPartial(maxLen, item, n);
    StepInside(maxLen, item, n);
    assert d[n..][1..] == d[n + 1..];
    if n + 1 < |d| {
      PacketCompletes(maxLen, item, n + 1);
    } else {
      NothingPartial(maxLen);
      assert d[n + 1..] == [];
      assert Feed(maxLen, [], []) == Fed([], []);
    }
  }

  /** One byte of a packet is collected, or completes it. */
  lemma StepInside(maxLen: nat, item: Item, n: nat)
    requires item.Fits(maxLen) && n < HEADER + |item.payload|
    ensures var d := item.Header() + item.payload;
            && Partial(maxLen, d[..n])
            && Step(maxLen, d[..n], d[n]) == if n + 1 < |d| then Collecting(d[..n + 1]) else Delivered(item.payload)
  {
    hide Item.Header, GoodHeader, Get32;
    var d := item.Header() + item.payload;
    PrefixPartial(maxLen, item, n);
    PrefixPartial(maxLen, item, n + 1);
    assert d[..n] + [d[n]] == d[..n + 1];
    assert d[HEADER..] == item.payload;
    if n + 1 == |d| {
      assert d[..n + 1] == d;
    }
  }

  lemma PrefixPartial(maxLen: nat, item: Item, n: nat)
    requires item.Fits(maxLen) && n <= HEADER + |item.payload|
    ensures var d := item.Header() + item.payload;
            && (n < |d| ==> Partial(maxLen, d[..n]))
            && (n >= HEADER ==> GoodHeader(maxLen, d[..n]) && Get32(d[..n], 1) == |item.payload|)
            && (n > 0 ==> d[0] == TAG)
  {
    hide Item.Header;
    var d := item.Header() + item.payload;
    assert d[..HEADER] == item.Header();
    HeaderParses(maxLen, item, d);
    if n >= HEADER {
      assert d[..n][..HEADER] == item.Header();
      HeaderParses(maxLen, item, d[..n]);
    }
  }

  /**
    A byte delivers a payload if and only if it completes a packet: the tag, its size, from 4 up
    to the maximum, the host's flow, two more bytes, and the payload itself.
  */
  lemma DeliversExactly(maxLen: nat, raw: seq<byte>, b: byte, payload: seq<byte>)
    requires Partial(maxLen, raw)
    ensures Step(maxLen, raw, b) == Delivered(payload)
       <==> && |raw| >= HEADER && 4 <= |payload| <= maxLen && |payload| < TWO32
            && raw[..6] == [TAG] + Le32(|payload|) + [HOST_FLOWID] && raw + [b] == raw[..HEADER] + payload
  {
    var more := raw + [b];
    if |raw| >= HEADER {
      assert more[1..5] == raw[1..5] && more[HEADER..] == raw[HEADER..] + [b];
      SizeBytes(raw, |payload|);
    }
  }

  /** The size field read back. */
  lemma SizeBytes(raw: seq<byte>, n: nat)
    requires |raw| >= HEADER
    ensures n < TWO32 ==> (Get32(raw, 1) == n <==> raw[1..5] == Le32(n))
  {
    PutGet(raw);
    if n < TWO32 && raw[1..5] == Le32(n) {
      GetPut(n, raw, 1);
    }
  }

  lemma PutGet(raw: seq<byte>)
    requires |raw| >= HEADER
    ensures raw[1..5] == Le32(Get32(raw, 1))
  {
    var lo, hi := LeValue(raw[1], raw[2]), LeValue(raw[3], raw[4]);
    Split(raw[1], raw[2]);
    Split(raw[3], raw[4]);
    hide LeValue, Le16;
    Quotient(hi, M16, lo);
    assert Get32(raw, 1) == hi * M16 + lo;
    assert raw[1..5] == [raw[1], raw[2]] + [raw[3], raw[4]];
  }

  lemma Split(lo: byte, hi: byte)
    ensures LeValue(lo, hi) < M16 && Le16(LeValue(lo, hi)) == [lo, hi]
  {
  }

  /** Every packet is delivered exactly and in order, and noise between packets is ignored. */
  lemma {:induction false} StreamDelivered(maxLen: nat, items: seq<Item>)
    requires forall i :: i in items ==> i.Fits(maxLen)
    ensures Feed(maxLen, [], Stream(maxLen, items)) == Fed([], Payloads(items))
    decreases |items|
  {
    if items != [] {
      var item := items[0];
      assert item.Fits(maxLen);
      var d := item.Header() + item.payload;
      hide Item.Header, Step, GoodHeader, Partial, Feed;
      NoiseIgnored(maxLen, item.noise);
      PacketCompletes(maxLen, item, 0);
      assert d[..0] == [] && d[0..] == d;
      StreamDelivered(maxLen, items[1..]);
      FeedConcat(maxLen, [], item.noise, d);
      FeedConcat(maxLen, [], item.noise + d, Stream(maxLen, items[1..]));
    }
  }

  // ----- what the device sends -----

  const FLOWID_ACK: byte := 0xFF
  const FLOWID_ERROR: byte := 0xEE

  /** A packet that the device sends; the two reserved bytes are not initialized. */
  function Reply(flowid: byte, res: seq<byte>, data: seq<byte>): seq<byte>
    requires |data| < TWO32
  {
    [TAG] + Le32(|data|) + [flowid] + res + data
  }

  /** A header of another flow, or with another size, is dropped as soon as it is complete. */
  lemma {:induction false} ForeignHeader(maxLen: nat, h: seq<byte>, n: nat)
    requires |h| == HEADER && h[0] == TAG && n < HEADER
    requires h[5] != HOST_FLOWID || Get32(h, 1) < 4 || Get32(h, 1) > maxLen
    ensures Partial(maxLen, h[..n]) && Feed(maxLen, h[..n], h[n..]) == Fed([], [])
    decreases HEADER - n
  {
    hide Get32;
    assert h[..n] + [h[n]] == h[..n + 1] && h[n..][1..] == h[n + 1..];
    if n + 1 < HEADER {
      ForeignHeader(maxLen, h, n + 1);
    } else {
      assert h[n + 1..] == [] && h[..HEADER] == h;
    }
  }

  /** Responses have the layout that the parser reads; only those that acknowledge carry the host's flow. */
  lemma ResponseReadBack(maxLen: nat, resp: nat, res: seq<byte>)
    requires maxLen >= 4 && resp < TAG && |res| == 2
    ensures Feed(maxLen, [], Reply(if resp == 0 then FLOWID_ACK else FLOWID_ERROR, res, Le32(resp)))
         == Fed([], if resp == 0 then [Le32(0)] else [])
  {
    var data := Le32(resp);
    hide Feed, Step, Partial, Get32, GoodHeader;
    NothingPartial(maxLen);
    if resp == 0 {
      var item := Item([], res, data);
      PacketCompletes(maxLen, item, 0);
      var d := item.Header() + data;
      assert d[..0] == [] && d[0..] == d && d == Reply(FLOWID_ACK, res, data);
    } else {
      var h := [TAG] + Le32(4) + [FLOWID_ERROR] + res;
      ForeignHeader(maxLen, h, 0);
      assert h[..0] == [] && h[0..] == h && h + data == Reply(FLOWID_ERROR, res, data);
      SmallBytes(resp);
      NoiseIgnored(maxLen, data);
      FeedConcat(maxLen, [], h, data);
    }
  }

  lemma SmallBytes(n: nat)
    requires n < TAG
    ensures TAG !in Le32(n)
  {
    assert Le16(n % M16) == [n, 0] && Le16(n / M16) == [0, 0];
  }

  /** The bytes of the acknowledgement: tag, little-endian size, flow, two bytes, and the code. */
  lemma ExampleReply(res: seq<byte>)
    requires |res| == 2
    ensures Reply(FLOWID_ACK, res, Le32(0)) == [0xAE, 4, 0, 0, 0, 0xFF] + res + [0, 0, 0, 0]
    ensures Le32(0x1122_3344) == [0x44, 0x33, 0x22, 0x11]
  {
    assert Le16(0) == [0, 0] && Le16(4) == [4, 0];
  }
}
