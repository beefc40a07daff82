/**
  The packet loop of boot_pdl.c, and what it sends.
*/
module PdlDownload {

  import opened Checksum
  import opened Words
  import opened Pdl
  import FdlEngine

  // ----- the packet loop -----

  class Engine {
    const maxLen: nat
    const pkt: array<byte>
    var len: nat
    var pktSize: nat

    ghost predicate Valid()
      reads this, pkt
    {
      && pkt.Length == maxLen + 32 && len <= pkt.Length && Partial(maxLen, pkt[..len])
      && (len >= HEADER ==> pktSize == Get32(pkt[..len], 1))
    }

    constructor (maxLen: nat)
      ensures Valid() && this.maxLen == maxLen && len == 0 && fresh(pkt)
    {
      this.maxLen := maxLen;
      pkt := new byte[maxLen + 32](_ => 0);
      len, pktSize := 0, 0;
    }

    /** One byte; a completed packet is handed over.  The buffer cannot overflow. */
    method TakeByte(b: byte) returns (done: bool, cmd: seq<byte>)
      requires Valid()
      modifies this, pkt
      ensures Valid()
      ensures Step(maxLen, old(pkt[..len]), b) == if done then Delivered(cmd) else Collecting(pkt[..len])
      ensures done ==> len == 0
    {
      hide Get32;
      done, cmd := false, [];
      if len == 0 && b != TAG {
        return;
      }
      ghost var raw := pkt[..len];
      FitsBuffer(maxLen, raw);
      pkt[len] := b;
      len := len + 1;
      assert pkt[..len] == raw + [b];
      SizeKept(raw, b);
      if len < HEADER {
      } else if len == HEADER {
        pktSize := Get32(pkt[..len], 1);
        if pkt[5] != HOST_FLOWID || pktSize > maxLen || pktSize < 4 {
          len := 0;
        }
      } else if len == HEADER + pktSize {
        done, cmd := true, pkt[HEADER..len];
        len := 0;
        pktSize := 0;
      }
    }

    /** One pass over a read buffer. */
    method Take(recv: seq<byte>) returns (cmds: seq<seq<byte>>)
      requires Valid()
      modifies this, pkt
      ensures Valid() && Fed(pkt[..len], cmds) == Feed(maxLen, old(pkt[..len]), recv)
    {
      hide Step, Partial, Get32;
      cmds := [];
      ghost var f := Feed(maxLen, pkt[..len], recv);
      assert recv[0..] == recv;
      for i := 0 to |recv|
        invariant Valid()
        invariant var rest := Feed(maxLen, pkt[..len], recv[i..]);
                  f == Fed(rest.raw, cmds + rest.payloads)
      {
        assert recv[i..][0] == recv[i] && recv[i..][1..] == recv[i + 1..];
        ghost var raw := pkt[..len];
        var done, cmd := TakeByte(recv[i]);
        if done {
          assert pkt[..len] == [];
          cmds := cmds + [cmd];
        }
      }
      assert recv[|recv|..] == [];
    }
  }

  /** Send one packet; the ghost result is what the reserved bytes of the header happened to be. */
  method SendData(ch: FdlEngine.Channel, data: seq<byte>, flowid: byte) returns (ghost res: seq<byte>)
    requires |data| < TWO32
    modifies ch
    ensures |res| == 2 && ch.sent == old(ch.sent) + Reply(flowid, res, data)
  {
    hide Le32;
    var res0: byte, res1: byte := *, *;
    res := [res0, res1];
    var header := [TAG] + Le32(|data|) + [flowid] + [res0, res1];
    FdlEngine.WriteAll(ch, header);
    FdlEngine.WriteAll(ch, data);
    assert old(ch.sent) + header + data == old(ch.sent) + (header + data);
  }

  /** The code of a response, and the flow that tells success from failure. */
  method SendResp(ch: FdlEngine.Channel, resp: nat) returns (ghost res: seq<byte>)
    requires resp < TWO32
    modifies ch
    ensures |res| == 2
    ensures ch.sent == old(ch.sent) + Reply(if resp == 0 then FLOWID_ACK else FLOWID_ERROR, res, Le32(resp))
  {
    var flowid := if resp == 0 then FLOWID_ACK else FLOWID_ERROR;
    res := SendData(ch, Le32(resp), flowid);
  }

  lemma FitsBuffer(maxLen: nat, raw: seq<byte>)
    requires Partial(maxLen, raw)
    ensures |raw| < maxLen + 32
  {
  }

  lemma SizeKept(raw: seq<byte>, b: byte)
    ensures |raw| >= HEADER ==> Get32(raw + [b], 1) == Get32(raw, 1)
  {
  }

  /** One read: its commands come next, and the rest of the stream holds the others. */
  method TakeRead(e: Engine, recv: seq<byte>, ghost rest: seq<byte>, ghost left: seq<seq<byte>>)
    returns (got: seq<seq<byte>>)
    requires e.Valid() && Feed(e.maxLen, e.pkt[..e.len], recv + rest) == Fed([], left)
    modifies e, e.pkt
    ensures e.Valid() && got <= left && Feed(e.maxLen, e.pkt[..e.len], rest) == Fed([], left[|got|..])
  {
    hide Partial, Feed, Get32;
    FeedConcat(e.maxLen, e.pkt[..e.len], recv, rest);
    got := e.Take(recv);
    ghost var after := Feed(e.maxLen, e.pkt[..e.len], rest);
    assert left == got + after.payloads;
  }

  lemma FeedNothing(maxLen: nat, raw: seq<byte>)
    requires Partial(maxLen, raw)
    ensures Feed(maxLen, raw, []).payloads == []
  {
  }
}
