/**
  The download of an image into RAM of boot_pdl_uimage.c.
*/
module PdlUimage {

  import opened Checksum
  import opened Words
  import opened Pdl
  import opened PdlDownload

  // ----- commands -----

  const CMD_CONNECT: nat := 0
  const CMD_START_DATA: nat := 4
  const CMD_MID_DATA: nat := 5
  const CMD_END_DATA: nat := 6
  const CMD_EXEC_DATA: nat := 7

  datatype Response = Ack | UnknownCmd | InvalidAddr | InvalidSize | VerifyError | Jumped

  function StartCommand(address: nat, size: nat): (c: seq<byte>)
    requires address < TWO32 && size < TWO32
    ensures |c| == COMMAND
  {
    Le32(CMD_START_DATA) + Le32(address) + Le32(size)
  }

  /** A MID command with this size field; its address field is not used. */
  function MidCommand(size: nat, data: seq<byte>): (c: seq<byte>)
    requires size < TWO32
    ensures |c| == COMMAND + |data|
  {
    Le32(CMD_MID_DATA) + Le32(0) + Le32(size) + data
  }

  /** The bytes of a START command. */
  lemma ExampleCommand()
    ensures StartCommand(0x1122_3344, 0x0506)
         == [4, 0, 0, 0, 0x44, 0x33, 0x22, 0x11, 0x06, 0x05, 0, 0]
  {
    assert Le16(4) == [4, 0] && Le16(0) == [0, 0] && Le16(0x0506) == [0x06, 0x05];
    assert Le16(0x3344) == [0x44, 0x33] && Le16(0x1122) == [0x22, 0x11];
  }

  lemma Fields(c: seq<byte>, kind: nat, address: nat, size: nat)
    requires |c| >= COMMAND && kind < TWO32 && address < TWO32 && size < TWO32
    requires c[0..4] == Le32(kind) && c[4..8] == Le32(address) && c[8..12] == Le32(size)
    ensures Get32(c, 0) == kind && Get32(c, 4) == address && Get32(c, 8) == size
  {
    GetPut(kind, c, 0);
    GetPut(address, c, 4);
    GetPut(size, c, 8);
  }

  /** Memory with data stored at an address. */
  function Stored(ram: seq<byte>, at: nat, data: seq<byte>): (r: seq<byte>)
    requires at + |data| <= |ram|
    ensures |r| == |ram|
  {
    ram[..at] + data + ram[at + |data|..]
  }

  lemma StoredMore(ram: seq<byte>, at: nat, a: seq<byte>, b: seq<byte>)
    requires at + |a| + |b| <= |ram|
    ensures Stored(Stored(ram, at, a), at + |a|, b) == Stored(ram, at, a + b)
  {
  }

  lemma StoredNothing(ram: seq<byte>, at: nat)
    requires at <= |ram|
    ensures Stored(ram, at, []) == ram
  {
  }

  lemma StoredSlice(ram: seq<byte>, at: nat, data: seq<byte>)
    requires at + |data| <= |ram|
    ensures Stored(ram, at, data)[at..at + |data|] == data
    ensures Stored(ram, at, data)[..at] == ram[..at] && Stored(ram, at, data)[at + |data|..] == ram[at + |data|..]
  {
  }

  // ----- which data is accepted, and where it goes -----

  /** Data copied to an address. */
  datatype Copy = Copy(at: nat, size: nat)

  datatype Region = Region(start: nat, size: nat)
  {
    predicate Valid() { start + size < TWO32 }

    predicate Holds(c: Copy) { start <= c.at && c.at + c.size <= start + size }
  }

  /** The fields of a command that matter; len is the size of the packet it came in. */
  datatype Request = Start(address: nat, size: nat) | Mid(size: nat, len: nat) | Other
  {
    predicate Valid() {
      match this
      case Start(a, n) => a < TWO32 && n < TWO32
      case Mid(n, len) => n < TWO32 && len < TWO32
      case Other => true
    }
  }

  /** The file size that was asked for, the size received, and all copies so far. */
  datatype Session = Session(fileSize: nat, recvSize: nat, copies: seq<Copy>)

  const NEW_SESSION := Session(0, 0, [])

  /** The checks of the code; all sums are taken in 32 bits. */
  predicate Accepts(g: Region, s: Session, c: Request) {
    match c
    case Start(a, n) => g.start <= a && Wrap(a + n) <= g.start + g.size
    case Mid(n, len) => Wrap(n + COMMAND) <= len && Wrap(s.recvSize + n) <= s.fileSize
    case Other => true
  }

  function After(g: Region, s: Session, c: Request): Session {
    if !Accepts(g, s, c) then s
    else
      match c
      case Start(_, n) => Session(n, 0, s.copies)
      case Mid(n, _) => Session(s.fileSize, Wrap(s.recvSize + n), s.copies + [Copy(Wrap(g.start + s.recvSize), n)])
      case Other => s
  }

  function Run(g: Region, s: Session, cs: seq<Request>): Session
    decreases |cs|
  {
    if cs == [] then s else Run(g, After(g, s, cs[0]), cs[1..])
  }

  ghost predicate Inside(g: Region, copies: seq<Copy>) {
    forall c :: c in copies ==> g.Holds(c)
  }

  // ----- when copies stay in the region -----

  /**
    A START is harmless if it asks for no more than the size of the region, or is refused.  A MID
    is harmless if its size field leaves room for the header in 32 bits, if it is refused for its
    packet, or if the region is too small for what was received to wrap around with it.
  */
  predicate Plain(g: Region, c: Request) {
    match c
    case Start(a, n) => n <= g.size || g.start > a || Wrap(a + n) > g.start + g.size
    case Mid(n, len) => n + COMMAND < TWO32 || Wrap(n + COMMAND) > len || n + g.size < TWO32
    case Other => true
  }

  /** Requests that come in packets of the engine's size. */
  ghost predicate Possible(maxLen: nat, cs: seq<Request>) {
    forall c :: c in cs ==> c.Valid() && (c.Mid? ==> c.len <= maxLen)
  }

  ghost predicate AllPlain(g: Region, cs: seq<Request>) {
    forall c :: c in cs ==> Plain(g, c)
  }

  lemma PlainStep(g: Region, maxLen: nat, s: Session, c: Request)
    requires g.Valid() && g.size + maxLen < TWO32
    requires c.Valid() && (c.Mid? ==> c.len <= maxLen) && Plain(g, c)
    requires s.recvSize <= s.fileSize <= g.size && Inside(g, s.copies)
    ensures var t := After(g, s, c);
            t.recvSize <= t.fileSize <= g.size && Inside(g, t.copies)
  {
    match c
    case Start(a, n) =>
    case Mid(n, len) =>
      if Accepts(g, s, c) {
        WrapSmall(n + COMMAND);
        WrapSmall(s.recvSize + n);
        WrapSmall(g.start + s.recvSize);
        hide Wrap;
      }
    case Other =>
  }

  lemma {:induction false} PlainRun(g: Region, maxLen: nat, s: Session, cs: seq<Request>)
    requires g.Valid() && g.size + maxLen < TWO32 && Possible(maxLen, cs) && AllPlain(g, cs)
    requires s.recvSize <= s.fileSize <= g.size && Inside(g, s.copies)
    ensures var t := Run(g, s, cs);
            t.recvSize <= t.fileSize <= g.size && Inside(g, t.copies)
    decreases |cs|
  {
    if cs != [] {
      assert cs[0] in cs;
      PlainStep(g, maxLen, s, cs[0]);
      PlainRun(g, maxLen, After(g, s, cs[0]), cs[1..]);
    }
  }

  lemma {:induction false} RunConcat(g: Region, s: Session, a: seq<Request>, b: seq<Request>)
    ensures Run(g, s, a + b) == Run(g, Run(g, s, a), b)
    decreases |a|
  {
    hide After;
    if a == [] {
      assert a + b == b;
    } else {
      assert (a + b)[1..] == a[1..] + b;
      RunConcat(g, After(g, s, a[0]), a[1..], b);
    }
  }

  lemma RunOne(g: Region, s: Session, c: Request)
    ensures Run(g, s, [c]) == After(g, s, c)
  {
    assert [c][1..] == [] && Run(g, After(g, s, c), []) == After(g, s, c);
  }

  /** n packets with one byte of data. */
  function Bytes(n: nat): (cs: seq<Request>)
    ensures |cs| == n
  {
    seq(n, _ => Mid(1, COMMAND + 1))
  }

  /** After one byte of data from each of n packets. */
  lemma {:induction false} RunBytes(g: Region, s: Session, n: nat)
    requires g.start + s.recvSize + n < TWO32 && s.recvSize + n <= s.fileSize
    ensures var t := Run(g, s, Bytes(n));
            && t.fileSize == s.fileSize && t.recvSize == s.recvSize + n
            && (n > 0 ==> Copy(g.start + s.recvSize + n - 1, 1) in t.copies)
            && forall c :: c in s.copies ==> c in t.copies
    decreases n
  {
    if n > 0 {
      var c := Bytes(n)[0];
      var t := After(g, s, c);
      WrapSmall(s.recvSize + 1);
      WrapSmall(g.start + s.recvSize);
      assert t == Session(s.fileSize, s.recvSize + 1, s.copies + [Copy(g.start + s.recvSize, 1)]);
      assert Bytes(n)[1..] == Bytes(n - 1);
      RunBytes(g, t, n - 1);
    }
  }

  /** A START for more than the region, and one byte too many. */
  lemma StartStrays(g: Region, c: Request)
    requires g.Valid() && c.Valid() && c.Start? && !Plain(g, c)
    ensures !Inside(g, Run(g, NEW_SESSION, [] + [c] + Bytes(g.size + 1)).copies)
  {
    var after := Bytes(g.size + 1);
    var s := After(g, NEW_SESSION, c);
    assert s == Session(c.size, 0, []);
    RunConcat(g, NEW_SESSION, [c], after);
    assert [] + [c] + after == [c] + after;
    RunOne(g, NEW_SESSION, c);
    if g.start + g.size + 1 < TWO32 {
      RunBytes(g, s, g.size + 1);
      assert !g.Holds(Copy(g.start + g.size, 1));
    } else {
      LastByte(g, s);
    }
  }

  /** The region ends at the end of the address space. */
  lemma LastByte(g: Region, s: Session)
    requires g.start + g.size + 1 == TWO32 && s.recvSize == 0 && g.size < s.fileSize < TWO32
    ensures !Inside(g, Run(g, s, Bytes(g.size + 1)).copies)
  {
    var n := g.size;
    assert Bytes(n + 1) == Bytes(n) + [Mid(1, COMMAND + 1)];
    RunBytes(g, s, n);
    RunConcat(g, s, Bytes(n), [Mid(1, COMMAND + 1)]);
    var t := Run(g, s, Bytes(n));
    var c := Mid(1, COMMAND + 1);
    WrapSmall(n + 1);
    WrapSmall(g.start + n);
    RunOne(g, t, c);
    assert !g.Holds(Copy(g.start + n, 1));
  }

  /** A MID whose size field wraps around, after as many bytes as make it wrap around to 0. */
  lemma MidStrays(g: Region, c: Request)
    requires g.Valid() && c.Valid() && c.Mid? && !Plain(g, c)
    ensures !Inside(g, Run(g, NEW_SESSION, [Start(g.start, TWO32 - c.size)] + Bytes(TWO32 - c.size) + [c] + []).copies)
  {
    var k := TWO32 - c.size;
    var a, bytes := Start(g.start, k), Bytes(k);
    WrapSmall(g.start + k);
    var s := After(g, NEW_SESSION, a);
    assert s == Session(k, 0, []);
    RunBytes(g, s, k);
    var t := Run(g, s, bytes);
    var u := After(g, t, c);
    assert [a] + bytes + [c] + [] == [a] + bytes + [c];
    RunOne(g, NEW_SESSION, a);
    RunOne(g, t, c);
    RunConcat(g, NEW_SESSION, [a] + bytes, [c]);
    RunConcat(g, NEW_SESSION, [a], bytes);
    assert Accepts(g, t, c);
    assert !g.Holds(Copy(g.start + k, c.size));
    assert Copy(g.start + k, c.size) in u.copies;
  }

  /**
    Over all runs of otherwise harmless commands no copy leaves the region, wherever in the run
    the command stands, if and only if the command is harmless: a condition on its fields.
  */
  lemma StaysInRegionExactly(g: Region, maxLen: nat, c: Request)
    requires g.Valid() && g.size + maxLen < TWO32 && maxLen > COMMAND
    requires c.Valid() && (c.Mid? ==> c.len <= maxLen)
    ensures (forall before: seq<Request>, after: seq<Request> ::
               Possible(maxLen, before) && Possible(maxLen, after) && AllPlain(g, before) && AllPlain(g, after) ==>
                 Inside(g, Run(g, NEW_SESSION, before + [c] + after).copies))
       <==> Plain(g, c)
  {
    if Plain(g, c) {
      forall before: seq<Request>, after: seq<Request> |
        Possible(maxLen, before) && Possible(maxLen, after) && AllPlain(g, before) && AllPlain(g, after)
        ensures Inside(g, Run(g, NEW_SESSION, before + [c] + after).copies)
      {
        PlainRun(g, maxLen, NEW_SESSION, before + [c] + after);
      }
    } else if c.Start? {
      var before: seq<Request>, after := [], Bytes(g.size + 1);
      StartStrays(g, c);
      BytesPlain(g, maxLen, g.size + 1);
      assert Possible(maxLen, before) && AllPlain(g, before);
    } else {
      var before, after: seq<Request> := [Start(g.start, TWO32 - c.size)] + Bytes(TWO32 - c.size), [];
      MidStrays(g, c);
      BytesPlain(g, maxLen, TWO32 - c.size);
      assert Possible(maxLen, before) && AllPlain(g, before) && Possible(maxLen, after) && AllPlain(g, after);
    }
  }

  lemma BytesPlain(g: Region, maxLen: nat, n: nat)
    requires maxLen > COMMAND
    ensures Possible(maxLen, Bytes(n)) && AllPlain(g, Bytes(n))
  {
  }

  // ----- the downloader -----

  /** Sums inside the region do not wrap around. */
  lemma RegionSums(g: Region, recvSize: nat, size: nat)
    requires g.Valid() && recvSize + size <= g.size
    ensures Wrap(g.start + recvSize) == g.start + recvSize && Wrap(recvSize + size) == recvSize + size
  {
    WrapSmall(g.start + recvSize);
    WrapSmall(recvSize + size);
  }

  /** The command as it lies in the packet buffer: fields of a short one are read from behind it. */
  function RequestOf(cmd: seq<byte>, behind: seq<byte>): (c: Request)
    requires 4 <= |cmd| < TWO32 && |cmd| + |behind| >= COMMAND
    ensures c.Valid()
  {
    var buf := cmd + behind;
    var kind := Get32(cmd, 0);
    if kind == CMD_START_DATA then Start(Get32(buf, 4), Get32(buf, 8))
    else if kind == CMD_MID_DATA then Mid(Get32(buf, 8), |cmd|)
    else Other
  }

  /** Download of an image into a region of RAM; addresses are indices into ram. */
  class Uimage {
    const ram: array<byte>
    const regionStart: nat
    const regionSize: nat
    var connected: bool
    var fileStart: nat
    var fileSize: nat
    var recvSize: nat
    /** The data accepted since the last accepted START, and all copies so far. */
    ghost var received: seq<byte>
    ghost var copies: seq<Copy>

    ghost predicate Valid()
      reads this
    {
      && regionStart + regionSize <= ram.Length && Place().Valid()
      && fileStart < TWO32 && fileSize < TWO32 && recvSize < TWO32
    }

    /** What was received is in the region. */
    ghost predicate Clean()
      reads this, ram
    {
      && Valid() && recvSize == |received| <= regionSize
      && ram[regionStart..regionStart + recvSize] == received
    }

    function Place(): Region
      reads this
    {
      Region(regionStart, regionSize)
    }

    ghost function State(): Session
      reads this
    {
      Session(fileSize, recvSize, copies)
    }

    constructor (ram: array<byte>, start: nat, size: nat)
      requires start + size <= ram.Length && start + size < TWO32
      ensures Clean() && this.ram == ram && Place() == Region(start, size) && received == [] && State() == NEW_SESSION
    {
      this.ram, regionStart, regionSize := ram, start, size;
      connected, fileStart, fileSize, recvSize := false, 0, 0, 0;
      received, copies := [], [];
    }

    /** START: where the file is asked for is noted, and its size. */
    method ProcessStart(address: nat, size: nat) returns (r: Response)
      requires Valid() && address < TWO32 && size < TWO32
      modifies this`fileStart, this`fileSize, this`recvSize, this`received
      ensures Valid() && State() == After(Place(), old(State()), Start(address, size))
      ensures r == if Accepts(Place(), old(State()), Start(address, size)) then Ack else InvalidAddr
      ensures r == Ack <==>
                regionStart <= address && (address + size) % 0x1_0000_0000 <= regionStart + regionSize
      ensures r == Ack ==> Clean() && received == [] && fileStart == address
      ensures r != Ack ==> received == old(received) && fileStart == old(fileStart)
    {
      if !(address >= regionStart && Wrap(address + size) <= Wrap(regionStart + regionSize)) {
        return InvalidAddr;
      }
      fileStart, fileSize, recvSize := address, size, 0;
      received := [];
      return Ack;
    }

    /**
      MID: data goes behind the data received so far, counted from the start of the region,
      wherever START asked for it.
    */
    method ProcessMid(cmd: seq<byte>, behind: seq<byte>) returns (r: Response)
      requires Valid() && 4 <= |cmd| < TWO32 && |cmd| + |behind| >= COMMAND
      modifies this`recvSize, this`received, this`copies, ram
      ensures var c := Mid(Get32(cmd + behind, 8), |cmd|);
              && Valid() && State() == After(Place(), old(State()), c)
              && r == if Accepts(Place(), old(State()), c) then Ack else InvalidSize
      ensures var n := Get32(cmd + behind, 8);
              r == Ack <==> (n + 12) % 0x1_0000_0000 <= |cmd| && (old(recvSize) + n) % 0x1_0000_0000 <= fileSize
      ensures r != Ack ==> received == old(received) && ram[..] == old(ram[..])
      ensures var n := Get32(cmd + behind, 8);
              r == Ack && n + COMMAND <= |cmd| ==>
                var at, data := Wrap(regionStart + old(recvSize)), cmd[COMMAND..COMMAND + n];
                && (at + n <= ram.Length ==> ram[..] == Stored(old(ram[..]), at, data))
                && (old(Clean()) && old(recvSize) + n <= regionSize ==>
                      Clean() && received == old(received) + data && at == regionStart + old(recvSize))
    {
      hide Get32, Stored, Uimage.Clean, Region.Valid;
      var size := Get32(cmd + behind, 8);
      if Wrap(size + COMMAND) > |cmd| {
        return InvalidSize;
      }
      if Wrap(recvSize + size) > fileSize {
        return InvalidSize;
      }
      TakeData(cmd, size);
      return Ack;
    }

    /** The copy of accepted data, and the count of what was received. */
    method TakeData(cmd: seq<byte>, size: nat)
      requires Valid()
      modifies this`recvSize, this`received, this`copies, ram
      ensures recvSize == Wrap(old(recvSize) + size)
      ensures copies == old(copies) + [Copy(Wrap(regionStart + old(recvSize)), size)]
      ensures size + COMMAND <= |cmd| ==>
                var at, data := Wrap(regionStart + old(recvSize)), cmd[COMMAND..COMMAND + size];
                && (at + size <= ram.Length ==> ram[..] == Stored(old(ram[..]), at, data))
                && (old(Clean()) && old(recvSize) + size <= regionSize ==>
                      Clean() && received == old(received) + data && at == regionStart + old(recvSize))
    {
      hide Stored;
      ghost var was, clean := ram[..], Clean() && recvSize + size <= regionSize;
      var at := Wrap(regionStart + recvSize);
      CopyToRam(at, size, cmd);
      if size + COMMAND <= |cmd| && clean {
        RegionSums(Place(), recvSize, size);
        Appended(was, regionStart, received, cmd[COMMAND..COMMAND + size]);
        received := received + cmd[COMMAND..COMMAND + size];
      }
      copies := copies + [Copy(at, size)];
      recvSize := Wrap(recvSize + size);
    }

    /**
      Copy data of a command.  What a copy does that takes more than the packet holds, or goes
      beyond RAM, is not known.
    */
    method CopyToRam(at: nat, size: nat, cmd: seq<byte>)
      modifies ram
      ensures size + COMMAND <= |cmd| && at + size <= ram.Length ==>
                ram[..] == Stored(old(ram[..]), at, cmd[COMMAND..COMMAND + size])
    {
      if size + COMMAND <= |cmd| && at + size <= ram.Length {
        forall i | 0 <= i < size {
          ram[at + i] := cmd[COMMAND + i];
        }
      } else {
        modify ram;
      }
    }

    /**
      One command; behind is what the packet buffer holds behind it.  EXEC checks the image,
      which is not modelled, and jumps to it.
    */
    method Process(cmd: seq<byte>, behind: seq<byte>) returns (r: Response)
      requires Valid() && 4 <= |cmd| < TWO32 && |cmd| + |behind| >= COMMAND
      modifies this, ram
      ensures var c := RequestOf(cmd, behind);
              && Valid() && State() == After(Place(), old(State()), c)
              && (c.Start? ==> r == if Accepts(Place(), old(State()), c) then Ack else InvalidAddr)
              && (c.Mid? ==> r == if Accepts(Place(), old(State()), c) then Ack else InvalidSize)
              && (c.Start? && r == Ack ==> Clean() && received == [] && fileStart == c.address)
              && (!(c.Start? && r == Ack) ==> fileStart == old(fileStart))
              && (!(c.Mid? && r == Ack) ==> ram[..] == old(ram[..]))
              && (c.Other? || (r != Ack) ==> received == old(received))
              && (c.Mid? && r == Ack && c.size + COMMAND <= |cmd| ==>
                    var at, data := Wrap(regionStart + old(recvSize)), cmd[COMMAND..COMMAND + c.size];
                    && (at + c.size <= ram.Length ==> ram[..] == Stored(old(ram[..]), at, data))
                    && (old(Clean()) && old(recvSize) + c.size <= regionSize ==>
                          Clean() && received == old(received) + data && at == regionStart + old(recvSize)))
      ensures connected == (old(connected) || Get32(cmd, 0) == CMD_CONNECT)
      ensures Get32(cmd, 0) in {CMD_CONNECT, CMD_END_DATA} ==> r == Ack
      ensures Get32(cmd, 0) == CMD_EXEC_DATA ==> r in {VerifyError, Jumped}
      ensures Get32(cmd, 0) !in {CMD_CONNECT, CMD_START_DATA, CMD_MID_DATA, CMD_END_DATA, CMD_EXEC_DATA} ==>
                r == UnknownCmd
    {
      hide Get32, Stored, Wrap, Accepts;
      var kind := Get32(cmd, 0);
      if kind == CMD_CONNECT {
        connected := true;
        return Ack;
      } else if kind == CMD_START_DATA {
        r := ProcessStart(Get32(cmd + behind, 4), Get32(cmd + behind, 8));
      } else if kind == CMD_MID_DATA {
        r := ProcessMid(cmd, behind);
      } else if kind == CMD_END_DATA {
        return Ack;
      } else if kind == CMD_EXEC_DATA {
        var good: bool := *;
        return if good then Jumped else VerifyError;
      } else {
        return UnknownCmd;
      }
    }
  }

  /** Data stored behind what the region holds. */
  lemma Appended(ram: seq<byte>, start: nat, received: seq<byte>, data: seq<byte>)
    requires start + |received| + |data| <= |ram| && ram[start..start + |received|] == received
    ensures Stored(ram, start + |received|, data)[start..start + |received| + |data|] == received + data
  {
  }

  // ----- a whole image -----

  function Concat(pieces: seq<seq<byte>>): seq<byte>
    decreases |pieces|
  {
    if pieces == [] then [] else Concat(pieces[..|pieces| - 1]) + pieces[|pieces| - 1]
  }

  lemma {:induction false} ConcatPrefix(pieces: seq<seq<byte>>, n: nat)
    requires n <= |pieces|
    ensures |Concat(pieces[..n])| <= |Concat(pieces)|
    decreases |pieces|
  {
    if n < |pieces| {
      ConcatPrefix(pieces[..|pieces| - 1], n);
      assert pieces[..|pieces| - 1][..n] == pieces[..n];
    } else {
      assert pieces[..n] == pieces;
    }
  }

  /** The commands that download an image in pieces. */
  ghost predicate Commands(cmds: seq<seq<byte>>, address: nat, size: nat, pieces: seq<seq<byte>>)
    requires address + size < TWO32
  {
    && |cmds| == |pieces| + 1 && cmds[0] == StartCommand(address, size)
    && forall k :: 0 <= k < |pieces| ==>
         |pieces[k]| + COMMAND < TWO32 && cmds[k + 1] == MidCommand(|pieces[k]|, pieces[k])
  }

  /** Fields of a command that is long enough do not depend on what is behind it. */
  lemma FieldsInside(cmd: seq<byte>, behind: seq<byte>, at: nat)
    requires at + 4 <= |cmd|
    ensures Get32(cmd + behind, at) == Get32(cmd, at)
  {
  }

  lemma StartFields(address: nat, size: nat)
    requires address < TWO32 && size < TWO32
    ensures var c := StartCommand(address, size);
            Get32(c, 0) == CMD_START_DATA && Get32(c, 4) == address && Get32(c, 8) == size
  {
    hide Le32, Get32;
    Fields(StartCommand(address, size), CMD_START_DATA, address, size);
  }

  lemma MidFields(size: nat, data: seq<byte>)
    requires size < TWO32
    ensures var c := MidCommand(size, data);
            Get32(c, 0) == CMD_MID_DATA && Get32(c, 8) == size && c[COMMAND..COMMAND + |data|] == data
  {
    hide Le32, Get32;
    var c := MidCommand(size, data);
    assert c == Le32(CMD_MID_DATA) + (Le32(0) + (Le32(size) + data));
    assert c[0..4] == Le32(CMD_MID_DATA);
    assert c[4..8] == Le32(0);
    assert c[8..12] == Le32(size);
    Fields(c, CMD_MID_DATA, 0, size);
  }

  /** A START command, whatever is behind it in the packet buffer. */
  method SendStart(u: Uimage, address: nat, size: nat, behind: seq<byte>) returns (r: Response)
    requires u.Valid() && address < TWO32 && size < TWO32
    modifies u, u.ram
    ensures u.Valid() && u.ram[..] == old(u.ram[..])
    ensures u.State() == After(u.Place(), old(u.State()), Start(address, size))
    ensures r == if Accepts(u.Place(), old(u.State()), Start(address, size)) then Ack else InvalidAddr
    ensures r == Ack ==> u.Clean() && u.received == [] && u.fileStart == address
  {
    var cmd := StartCommand(address, size);
    StartFields(address, size);
    FieldsInside(cmd, behind, 4);
    FieldsInside(cmd, behind, 8);
    hide Get32, StartCommand, Stored, Le32, Accepts, After;
    r := u.Process(cmd, behind);
  }

  /** A MID command, likewise. */
  method SendMid(u: Uimage, size: nat, data: seq<byte>, behind: seq<byte>) returns (r: Response)
    requires u.Valid() && size < TWO32 && |data| + COMMAND < TWO32
    modifies u, u.ram
    ensures u.Valid() && u.fileStart == old(u.fileStart)
    ensures u.State() == After(u.Place(), old(u.State()), Mid(size, COMMAND + |data|))
    ensures r == if Accepts(u.Place(), old(u.State()), Mid(size, COMMAND + |data|)) then Ack else InvalidSize
    ensures r == Ack && size == |data| && Wrap(u.regionStart + old(u.recvSize)) + size <= u.ram.Length ==>
              u.ram[..] == Stored(old(u.ram[..]), Wrap(u.regionStart + old(u.recvSize)), data)
    ensures r == Ack && size == |data| && old(u.Clean()) && old(u.recvSize) + size <= u.regionSize ==>
              u.Clean() && u.received == old(u.received) + data
  {
    var cmd := MidCommand(size, data);
    MidFields(size, data);
    FieldsInside(cmd, behind, 8);
    hide Get32, MidCommand, Stored, Le32, Accepts, After, Wrap;
    r := u.Process(cmd, behind);
  }

  /** After n commands of an image download, the first n - 1 pieces are at the start of the region. */
  ghost predicate Loaded(u: Uimage, was: seq<byte>, address: nat, n: nat, pieces: seq<seq<byte>>)
    requires n <= |pieces| + 1
    reads u, u.ram
  {
    && u.Valid() && |was| == u.ram.Length
    && (n == 0 ==> u.ram[..] == was)
    && (n > 0 ==>
          && u.Clean() && u.fileSize == |Concat(pieces)| && u.fileStart == address
          && u.received == Concat(pieces[..n - 1])
          && u.ram[..] == Stored(was, u.regionStart, Concat(pieces[..n - 1])))
  }

  /** START is accepted, for a file anywhere in the region. */
  method ProcessFirst(u: Uimage, behind: seq<byte>, ghost was: seq<byte>, address: nat, pieces: seq<seq<byte>>)
    requires u.regionStart <= address && address + |Concat(pieces)| <= u.regionStart + u.regionSize
    requires Loaded(u, was, address, 0, pieces)
    modifies u, u.ram
    ensures Loaded(u, was, address, 1, pieces)
  {
    hide Stored;
    StoredNothing(was, u.regionStart);
    assert Concat(pieces[..0]) == [];
    WrapSmall(address + |Concat(pieces)|);
    hide Wrap;
    var r := SendStart(u, address, |Concat(pieces)|, behind);
  }

  /** MID number k is accepted, and stores its piece. */
  method ProcessPiece(u: Uimage, k: nat, behind: seq<byte>, ghost was: seq<byte>, address: nat, pieces: seq<seq<byte>>)
    requires address + |Concat(pieces)| <= u.regionStart + u.regionSize
    requires k < |pieces| && |pieces[k]| + COMMAND < TWO32 && Loaded(u, was, address, k + 1, pieces)
    requires u.regionStart <= address
    modifies u, u.ram
    ensures Loaded(u, was, address, k + 2, pieces)
  {
    hide Stored;
    ConcatPrefix(pieces, k + 1);
    assert pieces[..k + 1][..k] == pieces[..k];
    StoredMore(was, u.regionStart, Concat(pieces[..k]), pieces[k]);
    WrapSmall(|pieces[k]| + COMMAND);
    RegionSums(u.Place(), u.recvSize, |pieces[k]|);
    hide Wrap;
    var r := SendMid(u, |pieces[k]|, pieces[k], behind);
  }

  /** Command n of an image download is accepted. */
  method ProcessNext(u: Uimage, n: nat, behind: seq<byte>, ghost was: seq<byte>, address: nat, pieces: seq<seq<byte>>)
    requires u.regionStart <= address && address + |Concat(pieces)| <= u.regionStart + u.regionSize
    requires n <= |pieces| && (n > 0 ==> |pieces[n - 1]| + COMMAND < TWO32) && Loaded(u, was, address, n, pieces)
    modifies u, u.ram
    ensures Loaded(u, was, address, n + 1, pieces)
  {
    hide Loaded;
    if n == 0 {
      ProcessFirst(u, behind, was, address, pieces);
    } else {
      ProcessPiece(u, n - 1, behind, was, address, pieces);
    }
  }

  /** Handle the commands that one read completed. */
  method ProcessGot(u: Uimage, got: seq<seq<byte>>, ghost cmds: seq<seq<byte>>, count0: nat, behind: seq<byte>,
                    ghost was: seq<byte>, address: nat, pieces: seq<seq<byte>>)
    returns (count: nat)
    requires address + |Concat(pieces)| < TWO32 && Commands(cmds, address, |Concat(pieces)|, pieces)
    requires u.regionStart <= address && address + |Concat(pieces)| <= u.regionStart + u.regionSize
    requires |cmds| == |pieces| + 1 && count0 + |got| <= |cmds| && got == cmds[count0..count0 + |got|]
    requires Loaded(u, was, address, count0, pieces)
    modifies u, u.ram
    ensures count == count0 + |got| && Loaded(u, was, address, count, pieces)
  {
    hide StartCommand, MidCommand, Loaded;
    for j := 0 to |got|
      invariant Loaded(u, was, address, count0 + j, pieces)
    {
      var n := count0 + j;
      assert got[j] == cmds[n];
      assert n > 0 ==> cmds[n - 1 + 1] == MidCommand(|pieces[n - 1]|, pieces[n - 1]);
      ProcessNext(u, n, behind, was, address, pieces);
    }
    count := count0 + |got|;
  }

  /**
    An image that is downloaded in any pieces, with any noise between the packets and any
    division into reads, ends up at the start of the region exactly, wherever in the region
    START asked for it, and nothing else in RAM changes.
  */
  method ReceiveImage(e: Engine, u: Uimage, items: seq<Item>, behind: seq<byte>, address: nat, pieces: seq<seq<byte>>)
    requires e.Valid() && e.len == 0 && u.Valid() && {e, e.pkt} !! {u, u.ram}
    requires forall i :: i in items ==> i.Fits(e.maxLen)
    requires u.regionStart <= address && address + |Concat(pieces)| <= u.regionStart + u.regionSize
    requires Commands(Payloads(items), address, |Concat(pieces)|, pieces)
    modifies e, e.pkt, u, u.ram
    ensures u.Clean() && u.received == Concat(pieces) && u.fileStart == address
    ensures u.ram[..] == Stored(old(u.ram[..]), u.regionStart, Concat(pieces))
  {
    hide Item.Fits, Commands, Partial, Feed, Get32, Stored, Loaded;
    var stream := Stream(e.maxLen, items);
    StreamDelivered(e.maxLen, items);
    var at: nat, count: nat := 0, 0;
    ghost var cmds, was := Payloads(items), u.ram[..];
    assert stream[0..] == stream && e.pkt[..e.len] == [];
    CommandCount(cmds, address, |Concat(pieces)|, pieces);
    LoadedNothing(u, was, address, pieces);
    while at < |stream|
      invariant at <= |stream| && e.Valid() && count <= |cmds|
      invariant Feed(e.maxLen, e.pkt[..e.len], stream[at..]) == Fed([], cmds[count..])
      invariant Loaded(u, was, address, count, pieces)
    {
      var n :| 0 < n <= |stream| - at;
      assert stream[at..] == stream[at..at + n] + stream[at + n..];
      var got := TakeRead(e, stream[at..at + n], stream[at + n..], cmds[count..]);
      assert cmds[count..][|got|..] == cmds[count + |got|..];
      assert got == cmds[count..count + |got|];
      count := ProcessGot(u, got, cmds, count, behind, was, address, pieces);
      at := at + n;
    }
    assert stream[at..] == [];
    FeedNothing(e.maxLen, e.pkt[..e.len]);
    assert count == |cmds|;
    LoadedAll(u, was, address, pieces);
  }

  lemma LoadedNothing(u: Uimage, was: seq<byte>, address: nat, pieces: seq<seq<byte>>)
    requires u.Valid() && was == u.ram[..]
    ensures Loaded(u, was, address, 0, pieces)
  {
  }

  lemma LoadedAll(u: Uimage, was: seq<byte>, address: nat, pieces: seq<seq<byte>>)
    requires Loaded(u, was, address, |pieces| + 1, pieces)
    ensures u.Clean() && u.received == Concat(pieces) && u.fileStart == address
    ensures u.regionStart + |Concat(pieces)| <= |was| && u.ram[..] == Stored(was, u.regionStart, Concat(pieces))
  {
    assert pieces[..|pieces|] == pieces;
  }

  lemma CommandCount(cmds: seq<seq<byte>>, address: nat, size: nat, pieces: seq<seq<byte>>)
    requires address + size < TWO32 && Commands(cmds, address, size, pieces)
    ensures |cmds| == |pieces| + 1
  {
  }

  // ----- where the file is asked for, and where it goes -----

  /**
    Data goes to the start of the region wherever START asked for it.  So the file is where it
    was asked for, whatever it is and whatever RAM held, if and only if that is the start of the
    region, or the file is empty.
  */
  lemma InPlaceOnlyAtRegionStart(size: nat, regionStart: nat, address: nat, n: nat)
    requires regionStart <= address && address + n <= size
    ensures (forall ram: seq<byte>, file: seq<byte> :: |ram| == size && |file| == n ==>
               Stored(ram, regionStart, file)[address..address + n] == file)
       <==> address == regionStart || n == 0
  {
    if address == regionStart || n == 0 {
      forall ram: seq<byte>, file: seq<byte> | |ram| == size && |file| == n
        ensures Stored(ram, regionStart, file)[address..address + n] == file
      {
        StoredSlice(ram, regionStart, file);
      }
    } else {
      var ram, file := seq(size, _ => 0 as byte), seq(n, _ => 1 as byte);
      var at := Stored(ram, regionStart, file)[address..address + n];
      assert at[n - 1] == 0 && file[n - 1] == 1;
    }
  }

  lemma NextStays(ram: seq<byte>, b: byte)
    requires |ram| >= 2
    ensures Stored(ram, 0, [b])[1] == ram[1]
  {
  }

  /** START one byte behind the region start is acknowledged, and the file is not there. */
  method ExampleMisplaced(u: Uimage, behind: seq<byte>) returns (start: Response, mid: Response)
    requires u.Valid() && u.regionStart == 0 && u.regionSize >= 2 && u.ram[1] == 0
    modifies u, u.ram
    ensures start == mid == Ack && u.fileStart == 1 && u.received == [1]
    ensures u.ram.Length >= 2 && u.ram[u.fileStart] == 0
  {
    ghost var was := u.ram[..];
    NextStays(was, 1);
    hide Stored;
    start := SendStart(u, 1, 1, behind);
    mid := SendMid(u, 1, [1], behind);
    assert u.ram[..][1] == was[1];
  }

  // ----- copies that leave the region -----

  /** START at the region for all the rest of the address space: its wrapped sum is 0. */
  method ExampleStartWraps(u: Uimage, behind: seq<byte>) returns (start: Response, mid: Response, more: Response)
    requires u.Valid() && u.Place() == Region(0x100, 2) && u.ram.Length > 0x102
    modifies u, u.ram
    ensures start == mid == more == Ack && u.ram[0x102] == 3
    ensures Copy(0x102, 1) in u.copies && !u.Place().Holds(Copy(0x102, 1))
  {
    start := SendStart(u, 0x100, 0xFFFF_FF00, behind);
    mid := SendMid(u, 2, [1, 2], behind);
    more := SendMid(u, 1, [3], behind);
    assert u.ram[..][0x102] == 3;
  }

  /** A MID whose size field wraps around in both sums, after twelve bytes. */
  method ExampleMidWraps(u: Uimage, data: seq<byte>, behind: seq<byte>)
    returns (start: Response, mid: Response, more: Response)
    requires u.Valid() && u.Place() == Region(0x100, 0x100) && |data| == COMMAND
    modifies u, u.ram
    ensures start == mid == more == Ack
    ensures Copy(0x10C, 0xFFFF_FFF4) in u.copies && !u.Place().Holds(Copy(0x10C, 0xFFFF_FFF4))
  {
    start := SendStart(u, 0x100, COMMAND, behind);
    mid := SendMid(u, COMMAND, data, behind);
    more := SendMid(u, 0xFFFF_FFF4, [], behind);
  }
}
