/** Conversion between a stream of firmware SysEx messages and a flat
    memory dump: syx_parse_packet checks one page packet, syx2dump scans a
    byte stream for firmware frames and concatenates their pages, and
    dump2syx cuts a dump into pages and wraps each in an upload message. */
module DumpConvert {
  import opened Common
  import opened SysexCodec

  // ---------------------------------------------------------------------
  // One page packet

  /** The address syx_parse_packet reads from the first two decoded bytes:
      `((b0 << 7) + b1) * 0x100`. */
  function PageAddress(b0: byte, b1: byte): nat
  {
    (b0 * 0x80 + b1) * 0x100
  }

  /** `lastaddr and address != lastaddr + 0x100`: a previous address of
      None or 0 lets any address through. */
  predicate AddressJumps(lastaddr: Option<nat>, address: nat)
  {
    lastaddr.Some? && lastaddr.value != 0 && address != lastaddr.value + 0x100
  }

  /** What syx_parse_packet returns: the page bytes and the page address. */
  datatype Page = Page(data: seq<byte>, address: nat)

  /** syx_parse_packet on the payload between the command byte and 0xF7. */
  function ParsedPacket(payload: seq<byte>, lastaddr: Option<nat>): (r: Result<Page>)
    ensures r.Success? ==> |payload| == 296 && |r.value.data| == 0x100
    ensures r.Success? ==> !AddressJumps(lastaddr, r.value.address)
  {
    if |payload| != 296 then Failure(WrongPacketLength)
    else
      var odata := Transported(Imploded(payload));
      var address := PageAddress(odata[0], odata[1]);
      if AddressJumps(lastaddr, address) then Failure(AddressJump)
      else if PageChecksum(odata[3..]) != odata[2] then Failure(PageChecksumError)
      else Success(Page(odata[3..], address))
  }

  /** syx_parse_packet: implode, undo the transport cipher, split off the
      address and the checksum, then check both. */
  method ParsePacket(payload: seq<byte>, lastaddr: Option<nat>) returns (r: Result<Page>)
    ensures r == ParsedPacket(payload, lastaddr)
  {
    if |payload| != 296 {
      return Failure(WrongPacketLength);
    }
    var imploded := Implode(payload);
    var odata := TransportDecode(imploded.value);
    var address := PageAddress(odata[0], odata[1]);
    var origsum := odata[2];
    odata := odata[3..];
    if AddressJumps(lastaddr, address) {
      return Failure(AddressJump);
    }
    var checksum := ComputePageChecksum(odata);
    if checksum != origsum {
      return Failure(PageChecksumError);
    }
    return Success(Page(odata, address));
  }

  /** The argument of a page upload: two index bytes, the checksum of the
      page, then the 256 page bytes. */
  function PacketArgument(hi: byte, lo: byte, page: seq<byte>): (r: seq<byte>)
    requires |page| == 0x100
    ensures |r| == 0x103 && r[3..] == page
  {
    [hi, lo, PageChecksum(page)] + page
  }

  /** The payload of an upload message: the argument ciphered and
      exploded into 296 seven-bit bytes. */
  function EncodedPayload(arg: seq<byte>): (r: seq<byte>)
    requires |arg| == 0x103
    ensures |r| == 296
    ensures forall k :: 0 <= k < |r| ==> r[k] < 0x80
  {
    ExplodedIsSevenBit(Transported(arg));
    Exploded(Transported(arg))
  }

  /** A packet built by dump2syx or send_display parses back to its page and
      the address its two index bytes encode; the address check is the only
      way it can fail. */
  lemma PacketRoundTrip(hi: byte, lo: byte, page: seq<byte>, lastaddr: Option<nat>)
    requires |page| == 0x100
    ensures ParsedPacket(EncodedPayload(PacketArgument(hi, lo, page)), lastaddr)
         == if AddressJumps(lastaddr, PageAddress(hi, lo)) then Failure(AddressJump)
            else Success(Page(page, PageAddress(hi, lo)))
  {
    var arg := PacketArgument(hi, lo, page);
    ImplodeExplode(Transported(arg));
    TransportInvolution(arg);
    assert Transported(Imploded(EncodedPayload(arg))) == arg;
  }

  // ---------------------------------------------------------------------
  // Scanning a SysEx stream (syx2dump)

  /** The first firmware packet accepted: its command fixes the packet
      family of the stream and its address is the start of the dump. */
  datatype Start = Start(command: byte, address: nat)

  /** The variables syx2dump carries across its byte loop: `insysex`,
      `sysex`, `command` with `addr[0]` (set together by the first accepted
      packet), `addr[1]`, `odata`, and whether the stray-data warning was
      given. */
  datatype Scanner = Scanner(insysex: bool, sysex: seq<byte>, start: Option<Start>,
                             lastaddr: Option<nat>, odata: seq<byte>, warned: bool)

  const Initial := Scanner(false, [], None, None, [], false)

  /** Between frames: not inside a SysEx message and nothing buffered. */
  predicate Idle(s: Scanner)
  {
    !s.insysex && s.sysex == []
  }

  /** The manufacturer identifier 00 20 32 at bytes 1 to 3 of a message. */
  const Manufacturer: seq<byte> := [0x00, 0x20, 0x32]

  /** The two firmware packet families: an image to be written (0x34) and
      a flash dump read back (0x74). */
  predicate IsFirmwareCommand(c: byte)
  {
    c == 0x34 || c == 0x74
  }

  /** The handling of 0xF7 with the finished buffer `sysex`. A buffer with
      the manufacturer identifier but fewer than 7 bytes has no command
      byte, which Python reports as an IndexError. */
  function EndFrame(s: Scanner, sysex: seq<byte>): Result<Scanner>
  {
    if Slice(sysex, 1, 4) == Manufacturer && |sysex| <= 6 then Failure(IndexOutOfRange)
    else if Slice(sysex, 1, 4) == Manufacturer && IsFirmwareCommand(sysex[6]) then
      var command := if s.start.Some? then s.start.value.command else sysex[6];
      if sysex[6] != command then Failure(MixedPacketTypes)
      else match ParsedPacket(Slice(sysex, 7, |sysex| - 1), s.lastaddr)
        case Failure(e) => Failure(e)
        case Success(page) =>
          var start := if s.start.Some? then s.start else Some(Start(command, page.address));
          Success(Scanner(false, [], start, Some(page.address), s.odata + page.data, s.warned))
    else Success(s.(insysex := false, sysex := [], warned := true))
  }

  /** One iteration of syx2dump's byte loop. */
  function Step(s: Scanner, b: byte): Result<Scanner>
  {
    var sysex := if s.insysex || b == 0xf0 then s.sysex + [b] else s.sysex;
    if b == 0xf0 then Success(s.(insysex := true, sysex := sysex))
    else if b == 0xf7 then EndFrame(s, sysex)
    else if s.insysex then Success(s.(sysex := sysex))
    else Success(s.(warned := true))
  }

  /** The scanner after the bytes `bs`, starting from `s`; an exception
      ends the scan. */
  function ScanFrom(s: Scanner, bs: seq<byte>): Result<Scanner>
  {
    if bs == [] then Success(s)
    else match ScanFrom(s, bs[..|bs| - 1])
      case Failure(e) => Failure(e)
      case Success(t) => Step(t, bs[|bs| - 1])
  }

  /** Scanning `input` from `s` succeeds and ends in `t`. */
  predicate Scans(s: Scanner, input: seq<byte>, t: Scanner)
  {
    ScanFrom(s, input) == Success(t)
  }

  /** `p` prepended to a successful result. */
  function Prepend(p: seq<byte>, r: Result<seq<byte>>): Result<seq<byte>>
  {
    match r
      case Failure(e) => Failure(e)
      case Success(v) => Success(p + v)
  }

  /** The final loop of syx2dump from offset `i` on: each 0x1000-byte chunk
      at offset `i` goes through syx_decode_write with seed
      `(i + first) / 0x1000`. */
  function ChunksDeciphered(data: seq<byte>, i: nat, first: nat): Result<seq<byte>>
    decreases |data| - i
  {
    if i >= |data| then Success([])
    else
      var chunk := Slice(data, i, i + 0x1000);
      if |chunk| % 2 != 0 then Failure(OddLength)
      else Prepend(WriteCiphered(chunk, (i + first) / 0x1000), ChunksDeciphered(data, i + 0x1000, first))
  }

  /** syx2dump: the pages of the accepted packets in stream order, with
      the write cipher undone when they are an image (0x34). */
  function StreamDump(idata: seq<byte>): Result<seq<byte>>
  {
    match ScanFrom(Initial, idata)
      case Failure(e) => Failure(e)
      case Success(s) =>
        if s.start.Some? && s.start.value.command == 0x34
        then ChunksDeciphered(s.odata, 0, s.start.value.address)
        else Success(s.odata)
  }

  lemma {:induction false} ScanAppend(s: Scanner, a: seq<byte>, b: seq<byte>)
    ensures ScanFrom(s, a + b) == match ScanFrom(s, a)
                                    case Failure(e) => Failure(e)
                                    case Success(t) => ScanFrom(t, b)
    decreases |b|
  {
    if b == [] {
      assert a + b == a;
    } else {
      var init := b[..|b| - 1];
      ScanAppend(s, a, init);
      assert (a + b)[..|a + b| - 1] == a + init;
      assert (a + b)[|a + b| - 1] == b[|b| - 1];
    }
  }

  /** An exception ends the scan: the rest of the input is not read. */
  lemma ScanStops(bs: seq<byte>, k: nat)
    requires k <= |bs| && ScanFrom(Initial, bs[..k]).Failure?
    ensures ScanFrom(Initial, bs) == ScanFrom(Initial, bs[..k])
  {
    ScanAppend(Initial, bs[..k], bs[k..]);
    assert bs[..k] + bs[k..] == bs;
  }

  /** Inside an open frame every byte but 0xF7 is buffered, 0xF0 included:
      a second 0xF0 does not restart the buffer. */
  lemma {:induction false} FrameBody(s: Scanner, body: seq<byte>)
    requires s.insysex
    requires forall k :: 0 <= k < |body| ==> body[k] != 0xf7
    ensures ScanFrom(s, body) == Success(s.(sysex := s.sysex + body))
    decreases |body|
  {
    if body == [] {
      assert s.sysex + body == s.sysex;
    } else {
      var init := body[..|body| - 1];
      FrameBody(s, init);
      assert s.sysex + init + [body[|body| - 1]] == s.sysex + body;
    }
  }

  /** Outside a frame, bytes other than 0xF0 change nothing but the
      warning flag. */
  lemma {:induction false} StrayBytes(s: Scanner, bs: seq<byte>)
    requires Idle(s)
    requires forall k :: 0 <= k < |bs| ==> bs[k] != 0xf0
    ensures ScanFrom(s, bs) == Success(if bs == [] then s else s.(warned := true))
    decreases |bs|
  {
    if bs != [] {
      StrayBytes(s, bs[..|bs| - 1]);
      assert Slice<byte>([], 1, 4) == [];
    }
  }

  /** The handling of 0xF7 reads nothing of the scanner but the fields
      a frame leaves alone. */
  lemma EndFrameOfOpen(s: Scanner, sysex: seq<byte>)
    requires Idle(s)
    ensures EndFrame(s.(insysex := true, sysex := sysex), sysex) == EndFrame(s, sysex)
  {
    var t := s.(insysex := true, sysex := sysex);
    assert t.(insysex := false, sysex := [], warned := true) == s.(warned := true);
  }

  /** A whole frame F0 ... F7 met between frames is handled at its 0xF7 as
      one unit. */
  lemma FrameScan(s: Scanner, body: seq<byte>)
    requires Idle(s)
    requires forall k :: 0 <= k < |body| ==> body[k] != 0xf7
    ensures ScanFrom(s, [0xf0] + body + [0xf7]) == EndFrame(s, [0xf0] + body + [0xf7])
  {
    var open := s.(insysex := true, sysex := [0xf0]);
    var f := [0xf0] + body + [0xf7];
    assert ScanFrom(s, [0xf0]) == Success(open) by {
      assert [0xf0][..0] == [];
      assert ScanFrom(s, []) == Success(s);
      assert s.sysex + [0xf0] == [0xf0];
      assert Step(s, 0xf0) == Success(open);
    }
    var t := open.(sysex := [0xf0] + body);
    assert ScanFrom(s, [0xf0] + body) == Success(t) by {
      ScanAppend(s, [0xf0], body);
      FrameBody(open, body);
    }
    assert f[..|f| - 1] == [0xf0] + body;
    assert ScanFrom(s, f) == Step(t, 0xf7);
    assert t == s.(insysex := true, sysex := [0xf0] + body);
    assert Step(t, 0xf7) == EndFrame(s.(insysex := true, sysex := f), f);
    EndFrameOfOpen(s, f);
  }

  /** A frame without the manufacturer identifier or without a firmware
      command contributes nothing; only the warning flag is set. */
  lemma ForeignFrameIgnored(s: Scanner, body: seq<byte>)
    requires Idle(s)
    requires forall k :: 0 <= k < |body| ==> body[k] != 0xf7
    requires var f := [0xf0] + body + [0xf7];
      Slice(f, 1, 4) != Manufacturer || (|f| > 6 && !IsFirmwareCommand(f[6]))
    ensures ScanFrom(s, [0xf0] + body + [0xf7]) == Success(s.(warned := true))
  {
    FrameScan(s, body);
  }

  /** Once one family is accepted, a firmware frame of the other family
      is rejected. */
  lemma MixedFamiliesRejected(s: Scanner, body: seq<byte>)
    requires Idle(s) && s.start.Some?
    requires forall k :: 0 <= k < |body| ==> body[k] != 0xf7
    requires var f := [0xf0] + body + [0xf7];
      Slice(f, 1, 4) == Manufacturer && |f| > 6 && IsFirmwareCommand(f[6])
      && f[6] != s.start.value.command
    ensures ScanFrom(s, [0xf0] + body + [0xf7]) == Failure(MixedPacketTypes)
  {
    FrameScan(s, body);
  }

  /** One more byte of the stream is one more step of the scanner. */
  lemma ScanNext(idata: seq<byte>, i: nat, before: Scanner)
    requires i < |idata| && ScanFrom(Initial, idata[..i]) == Success(before)
    ensures ScanFrom(Initial, idata[..i + 1]) == Step(before, idata[i])
  {
    assert idata[..i + 1][..i] == idata[..i];
  }

  /** syx2dump: a byte loop keeping the scanner variables, then the write
      cipher undone chunk by chunk in place for an image. */
  method Syx2Dump(idata: seq<byte>) returns (r: Result<seq<byte>>)
    ensures r == StreamDump(idata)
  {
    var odata: seq<byte> := [];
    var sysex: seq<byte> := [];
    var insysex := false;
    var foundnonsysex := false;
    var start: Option<Start> := None;
    var lastaddr: Option<nat> := None;
    for i := 0 to |idata|
      invariant ScanFrom(Initial, idata[..i]) == Success(Scanner(insysex, sysex, start, lastaddr, odata, foundnonsysex))
    {
      ScanNext(idata, i, Scanner(insysex, sysex, start, lastaddr, odata, foundnonsysex));
      var next := ScanByte(Scanner(insysex, sysex, start, lastaddr, odata, foundnonsysex), idata[i]);
      if next.Failure? {
        ScanStops(idata, i + 1);
        return Failure(next.error);
      }
      insysex, sysex, start, lastaddr, odata, foundnonsysex :=
        next.value.insysex, next.value.sysex, next.value.start,
        next.value.lastaddr, next.value.odata, next.value.warned;
    }
    assert idata[..|idata|] == idata;
    if start.Some? && start.value.command == 0x34 {
      r := DecipherChunks(odata, start.value.address);
    } else {
      r := Success(odata);
    }
  }

  /** The body of syx2dump's byte loop on the loop variables `s`: buffer
      the byte inside a frame or at its 0xF0, handle the frame at its 0xF7,
      and note a stray byte outside a frame. */
  method ScanByte(s: Scanner, b: byte) returns (r: Result<Scanner>)
    ensures r == Step(s, b)
  {
    var sysex := s.sysex;
    if s.insysex || b == 0xf0 {
      sysex := sysex + [b];
    }
    if b == 0xf0 {
      return Success(s.(insysex := true, sysex := sysex));
    } else if b == 0xf7 {
      r := EndSysex(s.(sysex := sysex));
    } else if !s.insysex {
      return Success(s.(warned := true));
    } else {
      return Success(s.(sysex := sysex));
    }
  }

  /** The 0xF7 branch of syx2dump's byte loop, on the loop variables `s`
      whose buffer ends with the 0xF7: a firmware packet is parsed and
      its page appended, any other message sets the warning flag. */
  method EndSysex(s: Scanner) returns (r: Result<Scanner>)
    ensures r == EndFrame(s, s.sysex)
  {
    var sysex := s.sysex;
    if Slice(sysex, 1, 4) == Manufacturer && |sysex| <= 6 {
      return Failure(IndexOutOfRange);
    }
    if Slice(sysex, 1, 4) == Manufacturer && IsFirmwareCommand(sysex[6]) {
      var command := if s.start.Some? then s.start.value.command else sysex[6];
      if sysex[6] != command {
        return Failure(MixedPacketTypes);
      }
      var parsed := ParsePacket(Slice(sysex, 7, |sysex| - 1), s.lastaddr);
      if parsed.Failure? {
        return Failure(parsed.error);
      }
      var start := s.start;
      if start.None? {
        start := Some(Start(command, parsed.value.address));
      }
      return Success(Scanner(false, [], start, Some(parsed.value.address), s.odata + parsed.value.data, s.warned));
    }
    return Success(s.(insysex := false, sysex := [], warned := true));
  }

  lemma PrependNested(p: seq<byte>, q: seq<byte>, r: Result<seq<byte>>)
    ensures Prepend(p, Prepend(q, r)) == Prepend(p + q, r)
  {
    if r.Success? {
      assert p + (q + r.value) == p + q + r.value;
    }
  }

  lemma PrependNothing(r: Result<seq<byte>>)
    ensures Prepend([], r) == r
  {
    if r.Success? {
      assert [] + r.value == r.value;
    }
  }

  /** The state of syx2dump's final loop before offset `i`: the buffer
      still holds the input from `i` on, and its deciphered prefix followed
      by the deciphering of the rest is the deciphering of the whole. */
  predicate DecipherInvariant(data: seq<byte>, first: nat, odata: seq<byte>, i: nat)
  {
    |odata| == |data|
    && (i < |data| ==> odata[i..] == data[i..])
    && Prepend(Slice(odata, 0, i), ChunksDeciphered(data, i, first)) == ChunksDeciphered(data, 0, first)
  }

  /** The final loop of syx2dump: each 0x1000-byte chunk is replaced in
      place by its write-deciphered form. */
  method DecipherChunks(data: seq<byte>, first: nat) returns (r: Result<seq<byte>>)
    ensures r == ChunksDeciphered(data, 0, first)
  {
    var odata := data;
    var i := 0;
    DecipherStarts(data, first);
    while i < |odata|
      invariant DecipherInvariant(data, first, odata, i)
      decreases |odata| - i
    {
      var chunk := Slice(odata, i, i + 0x1000);
      var decoded := DecodeWrite(chunk, (i + first) / 0x1000);
      if decoded.Failure? {
        DecipherFails(data, first, odata, i);
        return Failure(decoded.error);
      }
      ghost var prev := odata;
      odata := SliceAssign(odata, i, i + 0x1000, decoded.value);
      DecipherAdvances(data, first, prev, i, odata);
      i := i + 0x1000;
    }
    DecipherDone(data, first, odata, i);
    return Success(odata);
  }

  lemma DecipherStarts(data: seq<byte>, first: nat)
    ensures DecipherInvariant(data, first, data, 0)
  {
    PrependNothing(ChunksDeciphered(data, 0, first));
  }

  /** The chunk at `i` of the buffer is the chunk at `i` of the input. */
  lemma ChunkUntouched(data: seq<byte>, first: nat, odata: seq<byte>, i: nat)
    requires DecipherInvariant(data, first, odata, i) && i < |odata|
    ensures Slice(odata, i, i + 0x1000) == Slice(data, i, i + 0x1000)
  {
    var chunk := Slice(odata, i, i + 0x1000);
    assert odata[i..][..|chunk|] == chunk && data[i..][..|chunk|] == Slice(data, i, i + 0x1000);
  }

  lemma DecipherFails(data: seq<byte>, first: nat, odata: seq<byte>, i: nat)
    requires DecipherInvariant(data, first, odata, i) && i < |odata|
    requires |Slice(odata, i, i + 0x1000)| % 2 != 0
    ensures ChunksDeciphered(data, 0, first) == Failure(OddLength)
  {
    ChunkUntouched(data, first, odata, i);
  }

  lemma DecipherAdvances(data: seq<byte>, first: nat, prev: seq<byte>, i: nat, odata: seq<byte>)
    requires DecipherInvariant(data, first, prev, i) && i < |prev|
    requires |Slice(prev, i, i + 0x1000)| % 2 == 0
    requires odata == SliceAssign(prev, i, i + 0x1000,
                                  WriteCiphered(Slice(prev, i, i + 0x1000), (i + first) / 0x1000))
    ensures DecipherInvariant(data, first, odata, i + 0x1000)
  {
    var chunk := Slice(prev, i, i + 0x1000);
    ChunkUntouched(data, first, prev, i);
    var decoded := WriteCiphered(chunk, (i + first) / 0x1000);
    var prefix := prev[..i];
    var rest := ChunksDeciphered(data, i + 0x1000, first);
    assert ChunksDeciphered(data, i, first) == Prepend(decoded, rest);
    PrependNested(prefix, decoded, rest);
    assert odata == prefix + decoded + prev[i + |chunk|..];
    assert Slice(odata, 0, i + 0x1000) == prefix + decoded;
  }

  lemma DecipherDone(data: seq<byte>, first: nat, odata: seq<byte>, i: nat)
    requires DecipherInvariant(data, first, odata, i) && i >= |odata|
    ensures ChunksDeciphered(data, 0, first) == Success(odata)
  {
    assert Slice(odata, 0, i) == odata;
    assert ChunksDeciphered(data, i, first) == Success([]);
    assert odata + [] == odata;
  }

  // ---------------------------------------------------------------------
  // Cutting a dump into upload messages (dump2syx)

  /** How a page index becomes the first two bytes of a packet argument.
      dump2syx writes `idx >> 8` and `idx & 0xff` (ByteSplit);
      syx_parse_packet reads `(b0 << 7) + b1`, the inverse of the 7-bit
      split `idx >> 7`, `idx & 0x7f` (SevenBitSplit). */
  datatype IndexSplit = ByteSplit | SevenBitSplit

  /** The two index bytes. Only the low 8 bits of the first reach the
      message: the transport cipher XORs a byte into it and syx_explode
      reads bits 0 to 7 only, so a wider Python value gives the same
      output. */
  function IndexBytes(idx: nat, split: IndexSplit): (byte, byte)
  {
    match split
      case ByteSplit => ((idx / 0x100) % 0x100, idx % 0x100)
      case SevenBitSplit => ((idx / 0x80) % 0x100, idx % 0x80)
  }

  /** The indices below this bound are read back exactly. */
  function SplitLimit(split: IndexSplit): nat
  {
    match split
      case ByteSplit => 0x100
      case SevenBitSplit => 0x8000
  }

  /** Below its limit, a split is undone by syx_parse_packet's address
      formula. */
  lemma IndexSplitInverts(idx: nat, split: IndexSplit)
    requires idx < SplitLimit(split)
    ensures PageAddress(IndexBytes(idx, split).0, IndexBytes(idx, split).1) == idx * 0x100
  {
    match split
    case ByteSplit =>
      assert IndexBytes(idx, split) == (0, idx);
    case SevenBitSplit =>
      var q, r := idx / 0x80, idx % 0x80;
      assert idx == 0x80 * q + r && q < 0x100;
      assert IndexBytes(idx, split) == (q, r);
  }

  /** The message header: F0, manufacturer 00 20 32, device 7F, the model,
      and the upload command 0x34. */
  function Header(model: byte): seq<byte>
  {
    [0xf0, 0x00, 0x20, 0x32, 0x7f, model, 0x34]
  }

  /** The upload message of one 256-byte page with index `idx`. */
  function UploadMessage(idx: nat, page: seq<byte>, model: byte, split: IndexSplit): (r: seq<byte>)
    requires |page| == 0x100
    ensures |r| == 304
  {
    var ib := IndexBytes(idx, split);
    Header(model) + EncodedPayload(PacketArgument(ib.0, ib.1, page)) + [0xf7]
  }

  /** The messages of the first `n` pages of a sector, with page indices
      from `idx` on. */
  function SectorMessages(sector: seq<byte>, idx: nat, model: byte, split: IndexSplit, n: nat): (r: seq<byte>)
    requires 0x100 * n <= |sector|
    ensures |r| == 304 * n
  {
    if n == 0 then []
    else SectorMessages(sector, idx, model, split, n - 1)
         + UploadMessage(idx + n - 1, sector[0x100 * (n - 1) .. 0x100 * n], model, split)
  }

  /** `idata + [0] * ((0x1000 - len(idata) % 0x1000) % 0x1000)`. */
  function ZeroPadded(d: seq<byte>): (r: seq<byte>)
    ensures |r| % 0x1000 == 0 && |d| <= |r| < |d| + 0x1000
    ensures r[..|d|] == d && forall k :: |d| <= k < |r| ==> r[k] == 0
  {
    d + Repeat(0, (0x1000 - |d| % 0x1000) % 0x1000)
  }

  /** Sector `k` of a padded dump with the write cipher applied, seeded
      with its flash sector number `(base + 0x1000 * k) / 0x1000`. */
  function Sector(padded: seq<byte>, base: nat, k: nat): (r: seq<byte>)
    requires 0x1000 * k + 0x1000 <= |padded|
    ensures |r| == 0x1000
  {
    WriteCiphered(padded[0x1000 * k .. 0x1000 * k + 0x1000], (base + 0x1000 * k) / 0x1000)
  }

  /** The messages of the first `n` sectors. */
  function DumpMessages(padded: seq<byte>, base: nat, model: byte, split: IndexSplit, n: nat): (r: seq<byte>)
    requires 0x1000 * n <= |padded|
    ensures |r| == 16 * 304 * n
  {
    if n == 0 then []
    else DumpMessages(padded, base, model, split, n - 1)
         + SectorMessages(Sector(padded, base, n - 1), (base + 0x1000 * (n - 1)) / 0x100, model, split, 16)
  }

  /** dump2syx with the given index split: 16 upload messages of 304 bytes
      for every 4 KiB of the zero-padded dump. */
  function DumpStream(idata: seq<byte>, base: nat, model: byte, split: IndexSplit): (r: Result<seq<byte>>)
    ensures base % 0x1000 != 0 ==> r == Failure(BaseNotAligned)
    ensures base % 0x1000 == 0 && base < 0x2000 ==> r == Failure(BaseTooLow)
    ensures r.Success? ==> |r.value| * 0x1000 == 16 * 304 * |ZeroPadded(idata)|
  {
    if base % 0x1000 != 0 then Failure(BaseNotAligned)
    else if base < 0x2000 then Failure(BaseTooLow)
    else
      var padded := ZeroPadded(idata);
      Success(DumpMessages(padded, base, model, split, |padded| / 0x1000))
  }

  /** The index of the page `0x100 * m` bytes into an aligned sector. */
  lemma PageIndexStep(b: nat, m: nat)
    requires b % 0x100 == 0
    ensures (b + 0x100 * m) / 0x100 == b / 0x100 + m
  {
    var q := b / 0x100;
    assert b + 0x100 * m == 0x100 * (q + m);
  }

  lemma DumpMessagesNext(padded: seq<byte>, base: nat, model: byte, split: IndexSplit, n: nat)
    requires 0x1000 * n + 0x1000 <= |padded|
    ensures DumpMessages(padded, base, model, split, n + 1)
         == DumpMessages(padded, base, model, split, n)
            + SectorMessages(Sector(padded, base, n), (base + 0x1000 * n) / 0x100, model, split, 16)
  {
  }

  lemma SectorEven(sector: seq<byte>)
    requires |sector| == 0x1000
    ensures |sector| % 2 == 0
  {
  }

  /** Sector `n` after an aligned base starts on a page boundary. */
  lemma SectorAligned(base: nat, n: nat)
    requires base % 0x1000 == 0
    ensures (base + 0x1000 * n) % 0x100 == 0
    ensures (base + 0x1000 * n) / 0x100 == base / 0x100 + 16 * n
  {
    var q := base / 0x1000;
    assert base == 0x100 * (16 * q);
    assert base + 0x1000 * n == 0x100 * (16 * q + 16 * n);
  }

  /** dump2syx as written: the write cipher per sector, then one upload
      message per 256-byte page. */
  method Dump2Syx(idata: seq<byte>, base: nat, model: byte) returns (r: Result<seq<byte>>)
    ensures r == DumpStream(idata, base, model, ByteSplit)
  {
    if base % 0x1000 != 0 {
      return Failure(BaseNotAligned);
    }
    if base < 0x2000 {
      return Failure(BaseTooLow);
    }
    var padded := idata + Repeat(0, (0x1000 - |idata| % 0x1000) % 0x1000);
    assert padded == ZeroPadded(idata);
    var odata := UploadSectors(padded, |padded| / 0x1000, base, model);
    return Success(odata);
  }

  /** The outer loop of dump2syx: each 4 KiB sector of the padded dump in
      turn becomes 16 upload messages. */
  method UploadSectors(padded: seq<byte>, sectors: nat, base: nat, model: byte) returns (odata: seq<byte>)
    requires |padded| == 0x1000 * sectors && base % 0x1000 == 0
    ensures odata == DumpMessages(padded, base, model, ByteSplit, sectors)
  {
    odata := [];
    var n := 0;
    while n < sectors
      invariant n <= sectors
      invariant odata == DumpMessages(padded, base, model, ByteSplit, n)
    {
      var messages := UploadSector(padded, base, n, model);
      DumpMessagesNext(padded, base, model, ByteSplit, n);
      odata := odata + messages;
      n := n + 1;
    }
  }

  /** One iteration of the outer loop: sector `n`, at address
      `base + 0x1000 * n`, ciphered with its sector number and split into
      the messages of its 16 pages. */
  method UploadSector(padded: seq<byte>, base: nat, n: nat, model: byte) returns (messages: seq<byte>)
    requires base % 0x1000 == 0 && 0x1000 * n + 0x1000 <= |padded|
    ensures messages == SectorMessages(Sector(padded, base, n), (base + 0x1000 * n) / 0x100, model, ByteSplit, 16)
  {
    var plain := padded[0x1000 * n .. 0x1000 * n + 0x1000];
    SectorEven(plain);
    var ciphered := DecodeWrite(plain, (base + 0x1000 * n) / 0x1000);
    SectorAligned(base, n);
    messages := UploadPages(ciphered.value, (base + 0x1000 * n) / 0x100, model);
  }

  /** The inner loop of dump2syx: the upload messages of the 16 pages of
      one ciphered sector, whose first page has index `first`. The script
      recomputes `(base + page + subpage) >> 8` for every page; with an
      aligned base that is `first + m` for the `m`-th page. */
  method UploadPages(sector: seq<byte>, first: nat, model: byte) returns (odata: seq<byte>)
    requires |sector| == 0x1000
    ensures odata == SectorMessages(sector, first, model, ByteSplit, 16)
  {
    odata := [];
    var m := 0;
    while m < 16
      invariant m <= 16
      invariant odata == SectorMessages(sector, first, model, ByteSplit, m)
    {
      var message := PageMessage(sector, first, m, model);
      SectorMessagesNext(sector, first, model, ByteSplit, m);
      odata := odata + message;
      m := m + 1;
    }
  }

  /** One iteration of dump2syx's inner loop, for the page `0x100 * m`
      bytes into the sector: the argument with the page index written as
      `idx >> 8`, `idx & 0xff` and the page checksum, ciphered, exploded
      and framed. */
  method PageMessage(sector: seq<byte>, first: nat, m: nat, model: byte) returns (message: seq<byte>)
    requires 0x100 * m + 0x100 <= |sector|
    ensures message == UploadMessage(first + m, sector[0x100 * m .. 0x100 * m + 0x100], model, ByteSplit)
  {
    var idx := first + m;
    var page := sector[0x100 * m .. 0x100 * m + 0x100];
    // `idx >> 8`, of which the message keeps the low 8 bits
    var hi: byte := (idx / 0x100) % 0x100;
    var lo: byte := idx % 0x100;
    var arg := FillArgument(hi, lo, page);
    var transported := TransportDecode(arg);
    ArgumentGroups(transported);
    var exploded := Explode(transported);
    message := Header(model) + exploded.value + [0xf7];
    UploadMessageBytes(idx, page, model, hi, lo, arg, exploded.value, message);
  }

  /** The packet argument as dump2syx builds it: the index bytes, a zero
      placeholder and the page, then the placeholder replaced by the page
      checksum. */
  method FillArgument(hi: byte, lo: byte, page: seq<byte>) returns (arg: seq<byte>)
    requires |page| == 0x100
    ensures arg == PacketArgument(hi, lo, page)
  {
    arg := [hi, lo, 0] + page;
    assert arg[3..] == page;
    var checksum := ComputePageChecksum(arg[3..]);
    arg := arg[2 := checksum];
  }

  /** An upload message with the 8-bit index split, spelled out. */
  lemma UploadMessageBytes(idx: nat, page: seq<byte>, model: byte, hi: byte, lo: byte,
                           arg: seq<byte>, exploded: seq<byte>, message: seq<byte>)
    requires |page| == 0x100 && hi == (idx / 0x100) % 0x100 && lo == idx % 0x100
    requires arg == PacketArgument(hi, lo, page) && exploded == Exploded(Transported(arg))
    requires message == Header(model) + exploded + [0xf7]
    ensures message == UploadMessage(idx, page, model, ByteSplit)
  {
  }

  lemma SectorMessagesNext(sector: seq<byte>, idx: nat, model: byte, split: IndexSplit, m: nat)
    requires 0x100 * m + 0x100 <= |sector|
    ensures SectorMessages(sector, idx, model, split, m + 1)
         == SectorMessages(sector, idx, model, split, m)
            + UploadMessage(idx + m, sector[0x100 * m .. 0x100 * m + 0x100], model, split)
  {
  }

  lemma ArgumentGroups(arg: seq<byte>)
    requires |arg| == 0x103
    ensures |arg| % 7 == 0
  {
  }
}
