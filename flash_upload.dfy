/** flash_upload of bcfwflash.py: a firmware file is written to the device
    one sysex message at a time; after a message whose page ends a 4 KiB
    sector the device's acknowledgement is awaited and reported. */
module FirmwareUpload {
  import opened Common
  import opened SysexCodec
  import opened FlashProtocol
  import DumpConvert

  /** The status byte of a sector acknowledgement. */
  datatype Status = Ok | SectorIncomplete | EraseFailure | WriteFailure

  /** One progress line: the address range of the acknowledged sector and
      its status. */
  datatype Ack = Ack(lo: int, hi: int, status: Status)

  /** Status codes 1, 2 and 3 are failures; any other byte reads as ok. */
  function StatusOf(b: byte): (r: Status)
    ensures r == Ok <==> b !in {1, 2, 3}
  {
    if b == 1 then SectorIncomplete
    else if b == 2 then EraseFailure
    else if b == 3 then WriteFailure
    else Ok
  }

  /** The acknowledgement in reply `s`: bytes 7 and 8 give, seven bits each,
      the number of the last page written; the range reported is the 16
      pages (one sector) ending with that page. Byte 9 is the status. */
  function Acknowledged(s: seq<byte>): (r: Result<Ack>)
    ensures r.Success? <==> |s| >= 10
    ensures r.Failure? ==> r.error == IndexOutOfRange
    ensures r.Success? ==> r.value.hi - r.value.lo == 0x1000 && r.value.status == StatusOf(s[9])
                           && r.value.hi == 0x100 * ((s[7] as int) * 0x80 + s[8] as int + 1)
  {
    if |s| < 10 then Failure(IndexOutOfRange)
    else
      var address := ((s[7] as int) * 0x80 + s[8] as int) * 0x100;
      Success(Ack(address - 0xf00, address + 0x100, StatusOf(s[9])))
  }

  /** The acknowledgement a sector end waits for: the first reply other
      than an echo of an upload message, checked for the reply command. */
  function SectorAck(a: Reply): (r: Result<Ack>)
  {
    match a.result
    case Failure(e) => Failure(e)
    case Success(s) => Acknowledged(s)
  }

  /** How long the chunk at the head of `rest` is: stray bytes up to the
      first F0 are skipped, and the chunk ends at the first F7 from that F0
      on. Either search fails (a ValueError) when its byte is missing. */
  function ChunkLength(rest: seq<byte>): (r: Result<nat>)
    ensures r.Success? ==> 0 < r.value <= |rest| && rest[r.value - 1] == 0xf7
    ensures r.Failure? ==> r.error == DelimiterMissing
  {
    match FindFirst(rest, 0xf0)
    case None => Failure(DelimiterMissing)
    case Some(start) =>
      match FindFirst(rest[start..], 0xf7)
      case None => Failure(DelimiterMissing)
      case Some(k) => Success(start + k + 1)
  }

  /** Whether the message at the head of `rest` writes the last page of a
      sector. Bytes 7 to 14 of the remaining file (which run past a short
      message) are imploded and deciphered; they start with the page index,
      high byte first, and the sector ends when its low nibble is 0xF. */
  function EndsSector(rest: seq<byte>): (r: Result<bool>)
    ensures r.Failure? ==> r.error in {BlobLengthNotMultipleOf8, IndexOutOfRange}
  {
    var blob := Slice(rest, 7, 15);
    if |blob| % 8 != 0 then Failure(BlobLengthNotMultipleOf8)
    else
      var arg := Transported(Imploded(blob));
      if |arg| == 0 then Failure(IndexOutOfRange)
      else Success((arg[0] as int * 0x100 + arg[1] as int) % 0x10 == 0x0f)
  }

  /** What an upload did: the bytes written, the progress lines reported,
      whether the stray-data warning was given, how much of the device's
      output was read, and the error that stopped it. */
  datatype Upload = Upload(sent: seq<byte>, acks: seq<Ack>, warned: bool, used: nat,
                           error: Option<Error>)

  /** Upload `a`, which ended without error, followed by upload `b`. */
  function Followed(a: Upload, b: Upload): Upload
  {
    Upload(a.sent + b.sent, a.acks + b.acks, b.warned, a.used + b.used, b.error)
  }

  /** What follows the write of a chunk: when its page ends a sector, the
      acknowledgement read from the device. */
  datatype Outcome = Outcome(acks: seq<Ack>, used: nat, error: Option<Error>)

  function AfterWrite(rest: seq<byte>, input: seq<byte>): (r: Outcome)
    ensures r.used <= |input| && |r.acks| <= 1
  {
    match EndsSector(rest)
    case Failure(e) => Outcome([], 0, Some(e))
    case Success(last) =>
      if !last then Outcome([], 0, None)
      else
        var a := Awaited(input, 0x35, 0x34);
        match SectorAck(a)
        case Failure(e) => Outcome([], a.used, Some(e))
        case Success(ack) => Outcome([ack], a.used, None)
  }

  /** One round of flash_upload's loop, on the rest of the file; `len` is
      how far the file advances. */
  datatype Round = Round(done: Upload, len: nat)

  function UploadRound(rest: seq<byte>, warned: bool, input: seq<byte>): (r: Round)
    requires rest != []
    ensures r.done.used <= |input|
    ensures r.done.error.None? ==> 0 < r.len <= |rest|
  {
    var w := warned || rest[0] != 0xf0;
    var len := ChunkLength(rest);
    if len.Failure? then Round(Upload([], [], w, 0, Some(len.error)), 0)
    else
      var o := AfterWrite(rest, input);
      Round(Upload(rest[..len.value], o.acks, w, o.used, o.error), len.value)
  }

  /** flash_upload on the rest of the file `rest`, stated directly. */
  function Uploaded(rest: seq<byte>, warned: bool, input: seq<byte>): (r: Upload)
    ensures r.used <= |input|
    decreases |rest|
  {
    if rest == [] then Upload([], [], warned, 0, None)
    else
      var d := UploadRound(rest, warned, input);
      if d.done.error.Some? then d.done
      else
        var r := Followed(d.done, Uploaded(rest[d.len..], d.done.warned, input[d.done.used..]));
        r
  }

  /** Uploads compose associatively. */
  lemma FollowedAssoc(a: Upload, b: Upload, c: Upload)
    ensures Followed(Followed(a, b), c) == Followed(a, Followed(b, c))
  {
    assert (a.sent + b.sent) + c.sent == a.sent + (b.sent + c.sent);
    assert (a.acks + b.acks) + c.acks == a.acks + (b.acks + c.acks);
  }

  /** The upload so far, `acc`, followed by the file from `offset` on, is
      the upload so far with one more round, `acc'`, which either failed
      or is followed by the file from `next` on. */
  ghost predicate Advanced(data: seq<byte>, offset: nat, warned: bool, input: seq<byte>, acc: Upload,
                           acc': Upload, next: nat, warned': bool)
    requires offset <= |data| && acc.used <= |input|
  {
    acc'.used <= |input|
    && (acc'.error.Some? ==> Followed(acc, Uploaded(data[offset..], warned, input[acc.used..])) == acc')
    && (acc'.error.None? ==>
          offset < next <= |data|
          && Followed(acc, Uploaded(data[offset..], warned, input[acc.used..]))
             == Followed(acc', Uploaded(data[next..], warned', input[acc'.used..])))
  }

  /** One round advances the upload. */
  lemma UploadedAdvance(data: seq<byte>, offset: nat, warned: bool, input: seq<byte>, acc: Upload,
                        d: Round, acc': Upload, next: nat, warned': bool)
    requires offset < |data| && acc.used <= |input|
    requires d == UploadRound(data[offset..], warned, input[acc.used..])
    requires acc' == Followed(acc, d.done) && warned' == d.done.warned
    requires d.done.error.None? ==> next == offset + d.len
    ensures Advanced(data, offset, warned, input, acc, acc', next, warned')
  {
    assert input[acc.used..][d.done.used..] == input[acc'.used..];
    if d.done.error.None? {
      assert data[offset..][d.len..] == data[next..];
      FollowedAssoc(acc, d.done, Uploaded(data[next..], warned', input[acc'.used..]));
    }
  }

  /** What the port has sent and has left to read after one more round. */
  lemma PortAdvance(sent: seq<byte>, a: seq<byte>, b: seq<byte>, input: seq<byte>, i: nat, j: nat, k: nat)
    requires i + j <= |input| && k == i + j
    ensures (sent + a) + b == sent + (a + b)
    ensures input[i..][j..] == input[k..]
  {
  }

  /** The two delimiter searches of flash_upload's loop. */
  method FindChunk(rest: seq<byte>) returns (r: Result<nat>)
    requires rest != []
    ensures r == ChunkLength(rest)
  {
    var start := 0;
    if rest[0] != 0xf0 {
      var f := FindFirst(rest, 0xf0);
      if f.None? {
        return Failure(DelimiterMissing);
      }
      start := f.value;
    }
    var e := FindFirst(rest[start..], 0xf7);
    if e.None? {
      return Failure(DelimiterMissing);
    }
    r := Success(start + e.value + 1);
  }

  /** The sector-end test of flash_upload's loop. */
  method SectorCheck(rest: seq<byte>) returns (r: Result<bool>)
    ensures r == EndsSector(rest)
  {
    var imploded := Implode(Slice(rest, 7, 15));
    if imploded.Failure? {
      return Failure(imploded.error);
    }
    var arg := TransportDecode(imploded.value);
    if |arg| == 0 {
      return Failure(IndexOutOfRange);
    }
    var address := arg[0] as int * 0x100 + arg[1] as int;
    r := Success(address % 0x10 == 0x0f);
  }

  /** Waits for a sector's acknowledgement, skipping echoed upload
      messages, and reads its range and status. */
  method AwaitAck(port: MidiPort) returns (r: Result<Ack>)
    modifies port
    ensures r == SectorAck(Awaited(old(port.inbound), 0x35, 0x34))
    ensures port.inbound == old(port.inbound)[Awaited(old(port.inbound), 0x35, 0x34).used..]
    ensures port.sent == old(port.sent)
  {
    var reply := AwaitReply(port, 0x35, 0x34);
    if reply.Failure? {
      return Failure(reply.error);
    }
    var s := reply.value;
    if |s| < 10 {
      return Failure(IndexOutOfRange);
    }
    var address := ((s[7] as int) * 0x80 + s[8] as int) * 0x100;
    r := Success(Ack(address - 0xf00, address + 0x100, StatusOf(s[9])));
  }

  /** One round of flash_upload's loop: the chunk at `offset` is written;
      when its page ends a sector, the acknowledgement is awaited. */
  method UploadChunk(port: MidiPort, data: seq<byte>, offset: nat, warned: bool, ghost d: Round)
    returns (next: nat, warned': bool, acks: seq<Ack>, error: Option<Error>)
    modifies port
    requires offset < |data| && d == UploadRound(data[offset..], warned, port.inbound)
    ensures port.sent == old(port.sent) + d.done.sent
            && port.inbound == old(port.inbound)[d.done.used..]
            && warned' == d.done.warned && acks == d.done.acks && error == d.done.error
            && next == offset + d.len
  {
    var rest := data[offset..];
    warned' := warned || rest[0] != 0xf0;
    var len := FindChunk(rest);
    if len.Failure? {
      return offset, warned', [], Some(len.error);
    }
    next := offset + len.value;
    port.Write(rest[..len.value]);
    var last := SectorCheck(rest);
    if last.Failure? {
      return next, warned', [], Some(last.error);
    }
    acks, error := [], None;
    if last.value {
      var ack := AwaitAck(port);
      if ack.Failure? {
        return next, warned', [], Some(ack.error);
      }
      acks := [ack.value];
    }
  }

  /** UploadChunk, with the upload so far, `acc`, carried along. */
  method UploadStep(port: MidiPort, data: seq<byte>, offset: nat, warned: bool, acks: seq<Ack>,
                    ghost input: seq<byte>, ghost sent: seq<byte>, ghost acc: Upload)
    returns (next: nat, warned': bool, acks': seq<Ack>, failed: Option<Error>, ghost acc': Upload)
    modifies port
    requires offset < |data| && acc.used <= |input| && acc.error.None?
    requires acc.acks == acks && acc.warned == warned
    requires port.sent == sent + acc.sent && port.inbound == input[acc.used..]
    ensures acc'.acks == acks' && acc'.warned == warned' && acc'.error == failed
    ensures Advanced(data, offset, warned, input, acc, acc', next, warned')
    ensures port.sent == sent + acc'.sent && port.inbound == input[acc'.used..]
  {
    ghost var d := UploadRound(data[offset..], warned, input[acc.used..]);
    var more;
    next, warned', more, failed := UploadChunk(port, data, offset, warned, d);
    acc' := Followed(acc, d.done);
    PortAdvance(sent, acc.sent, d.done.sent, input, acc.used, d.done.used, acc'.used);
    acks' := acks + more;
    UploadedAdvance(data, offset, warned, input, acc, d, acc', next, warned');
  }

  /** flash_upload: the file is written chunk by chunk until it ends or a
      round fails. Returns the progress lines reported, whether the stray
      data warning was given, and the error that stopped it, if any. */
  method FlashUpload(port: MidiPort, data: seq<byte>) returns (acks: seq<Ack>, warned: bool, error: Option<Error>)
    modifies port
    ensures port.sent == old(port.sent) + Uploaded(data, false, old(port.inbound)).sent
    ensures port.inbound == old(port.inbound)[Uploaded(data, false, old(port.inbound)).used..]
    ensures acks == Uploaded(data, false, old(port.inbound)).acks
    ensures warned == Uploaded(data, false, old(port.inbound)).warned
    ensures error == Uploaded(data, false, old(port.inbound)).error
  {
    ghost var input, sent := port.inbound, port.sent;
    ghost var u := Uploaded(data, false, input);
    ghost var acc := Upload([], [], false, 0, None);
    assert input[0..] == input && data[0..] == data;
    var offset := 0;
    acks, warned, error := [], false, None;
    while offset < |data|
      invariant offset <= |data| && acc.used <= |input| && acc.error.None?
      invariant acc.acks == acks && acc.warned == warned
      invariant port.sent == sent + acc.sent && port.inbound == input[acc.used..]
      invariant u == Followed(acc, Uploaded(data[offset..], warned, input[acc.used..]))
      decreases |data| - offset
    {
      var failed;
      offset, warned, acks, failed, acc := UploadStep(port, data, offset, warned, acks, input, sent, acc);
      if failed.Some? {
        assert u == acc;
        return acks, warned, failed;
      }
    }
    UploadedAll(acc, data[offset..], warned, input[acc.used..]);
  }

  /** Once the whole file is sent, the upload is what was accumulated. */
  lemma UploadedAll(acc: Upload, rest: seq<byte>, warned: bool, input: seq<byte>)
    requires rest == [] && acc.warned == warned && acc.error.None?
    ensures Followed(acc, Uploaded(rest, warned, input)) == acc
  {
    assert acc.sent + [] == acc.sent && acc.acks + [] == acc.acks;
  }

  // ---------------------------------------------------------------------
  // Properties

  /** A chunk as flash_upload writes it: an F0 somewhere, then up to the
      first F7 after it, which ends the chunk; bytes before the F0 are
      stray data. */
  predicate IsChunk(w: seq<byte>)
  {
    |w| >= 2 && w[|w| - 1] == 0xf7 && 0xf0 in w[..|w| - 1]
    && forall i, j | 0 <= i < j < |w| - 1 && w[i] == 0xf0 :: w[j] != 0xf7
  }

  /** The chunk ChunkLength measures is a chunk, and its first byte is an
      F0 unless stray data comes before the message. */
  lemma ChunkShape(rest: seq<byte>, len: nat)
    requires ChunkLength(rest) == Success(len)
    ensures len <= |rest| && IsChunk(rest[..len])
  {
    FindFirstSpec(rest, 0xf0);
    var start := FindFirst(rest, 0xf0).value;
    FindFirstSpec(rest[start..], 0xf7);
    var k := FindFirst(rest[start..], 0xf7).value;
    assert len == start + k + 1;
    var w := rest[..len];
    assert w[start] == 0xf0 && start < |w| - 1;
    assert forall t | 0 <= t < start :: rest[..start][t] == w[t];
    assert forall t | start <= t < |w| - 1 :: rest[start..][..k][t - start] == w[t];
  }

  /** What one round writes, and how far it moves on. */
  lemma RoundWrites(rest: seq<byte>, warned: bool, input: seq<byte>)
    requires rest != []
    ensures var d := UploadRound(rest, warned, input);
            && d.done.warned == (warned || rest[0] != 0xf0)
            && (ChunkLength(rest).Failure? ==> d.done.sent == [] && d.done.error.Some?)
            && (ChunkLength(rest).Success? ==>
                  d.len == ChunkLength(rest).value && d.done.sent == rest[..d.len])
  {
  }

  /** flash_upload writes the file as it is, in order: what it writes is a
      prefix of the file, and all of it when no round fails. */
  lemma {:induction false} UploadWritesFile(rest: seq<byte>, warned: bool, input: seq<byte>)
    ensures Uploaded(rest, warned, input).sent <= rest
    ensures Uploaded(rest, warned, input).error.None? ==> Uploaded(rest, warned, input).sent == rest
    decreases |rest|
  {
    if rest != [] {
      var d := UploadRound(rest, warned, input);
      RoundWrites(rest, warned, input);
      if d.done.error.None? {
        var t := Uploaded(rest[d.len..], d.done.warned, input[d.done.used..]);
        assert Uploaded(rest, warned, input) == Followed(d.done, t);
        UploadWritesFile(rest[d.len..], d.done.warned, input[d.done.used..]);
        PrefixAfter(rest, d.len, t.sent);
      }
    }
  }

  /** A round reads the device's output only after a chunk whose page ends
      a sector, and reports a progress line only then. */
  lemma RoundReadsAtSectorEnd(rest: seq<byte>, warned: bool, input: seq<byte>)
    requires rest != []
    ensures var d := UploadRound(rest, warned, input);
            (d.done.used > 0 || d.done.acks != []) ==> EndsSector(rest) == Success(true)
  {
  }

  /** Bytes 7 to 14 of the remaining file decide the sector end; for a
      message of at least 15 bytes they lie within the message. */
  lemma EndsSectorWithin(m: seq<byte>, rest: seq<byte>)
    requires |m| >= 15
    ensures EndsSector(m + rest) == EndsSector(m)
  {
    assert Slice(m + rest, 7, 15) == m[7..15] == Slice(m, 7, 15);
  }

  /** The first eight payload bytes of an upload message decode back to
      the first seven bytes of its packet argument. */
  lemma PayloadHead(arg: seq<byte>)
    requires |arg| == 0x103
    ensures Transported(Imploded(DumpConvert.EncodedPayload(arg)[..8])) == arg[..7]
  {
    var t := Transported(arg);
    var g := t[..7];
    assert t == g + t[7..];
    assert DumpConvert.EncodedPayload(arg)[..8] == ExplodedGroup(g);
    var e := ExplodedGroup(g);
    assert e[..8] == e && e[8..] == [];
    GroupImplodeExplode(g);
    assert Imploded(e) == g;
    TransportInvolution(arg);
    forall i | 0 <= i < 7
      ensures Transported(g)[i] == arg[i]
    {
      assert Transported(g)[i] == Transported(t)[i];
    }
  }

  /** A dump2syx upload message for a model below 0x80 is a single framed
      Behringer message with the upload command: every byte between F0 and
      F7 has its top bit clear. */
  lemma UploadMessageFramed(idx: nat, page: seq<byte>, model: byte, split: DumpConvert.IndexSplit)
    requires |page| == 0x100 && model < 0x80
    ensures var m := DumpConvert.UploadMessage(idx, page, model, split);
            Framed(m) && FromBehringer(m) && m[5] == model && m[6] == 0x34
  {
    var ib := DumpConvert.IndexBytes(idx, split);
    var p := DumpConvert.EncodedPayload(DumpConvert.PacketArgument(ib.0, ib.1, page));
    var m := DumpConvert.UploadMessage(idx, page, model, split);
    var h := DumpConvert.Header(model);
    assert m == h + p + [0xf7];
    forall i | 0 < i < |m| - 1
      ensures m[i] < 0x80
    {
      if i < 7 {
        assert m[i] == h[i];
      } else {
        assert m[i] == p[i - 7];
      }
    }
    assert m[1..4] == [0x00, 0x20, 0x32];
  }

  /** The sector-end test reads back the page index of a dump2syx message:
      its low nibble is what both index splits keep. */
  lemma SectorEndOfPage(idx: nat, page: seq<byte>, model: byte, split: DumpConvert.IndexSplit)
    requires |page| == 0x100
    ensures EndsSector(DumpConvert.UploadMessage(idx, page, model, split)) == Success(idx % 0x10 == 0x0f)
  {
    var ib := DumpConvert.IndexBytes(idx, split);
    var arg := DumpConvert.PacketArgument(ib.0, ib.1, page);
    var p := DumpConvert.EncodedPayload(arg);
    var m := DumpConvert.UploadMessage(idx, page, model, split);
    assert m == DumpConvert.Header(model) + p + [0xf7];
    assert Slice(m, 7, 15) == p[..8];
    PayloadHead(arg);
    assert arg[..7][0] == ib.0 && arg[..7][1] == ib.1;
    LowNibble(idx, split, ib.0, ib.1);
  }

  /** The page index and the address flash_upload reads from the index
      bytes agree in their low nibble. */
  lemma LowNibble(idx: nat, split: DumpConvert.IndexSplit, hi: byte, lo: byte)
    requires (hi, lo) == DumpConvert.IndexBytes(idx, split)
    ensures (hi * 0x100 + lo) % 0x10 == idx % 0x10
  {
    NibbleShift(0x10 * hi, lo);
    var q := if split.ByteSplit? then idx / 0x100 else idx / 0x80;
    var k := if split.ByteSplit? then 0x10 * q else 8 * q;
    assert idx == 0x10 * k + lo;
    NibbleShift(k, lo);
  }

  lemma NibbleShift(k: nat, r: nat)
    ensures (0x10 * k + r) % 0x10 == r % 0x10
  {
  }

  /** A framed message at the head of the file is one chunk. */
  lemma FramedChunk(m: seq<byte>, rest: seq<byte>)
    requires Framed(m)
    ensures ChunkLength(m + rest) == Success(|m|)
  {
    var s := m + rest;
    assert s[0..] == s;
    assert forall t | 0 <= t < |m| - 1 :: s[..|m| - 1][t] == m[t];
    FindFirstIs(s, 0xf7, |m| - 1);
  }

  /** An acknowledgement as the device sends it. */
  predicate IsAck(f: seq<byte>)
  {
    Framed(f) && FromBehringer(f) && f[6] == 0x35 && |f| >= 10
  }

  /** A message that does not end a sector is written and nothing is read. */
  lemma RoundOfPage(m: seq<byte>, rest: seq<byte>, warned: bool, input: seq<byte>)
    requires Framed(m) && |m| >= 15 && EndsSector(m) == Success(false)
    ensures UploadRound(m + rest, warned, input) == Round(Upload(m, [], warned, 0, None), |m|)
  {
    FramedChunk(m, rest);
    EndsSectorWithin(m, rest);
    assert (m + rest)[..|m|] == m;
  }

  /** A message that ends a sector is written and the acknowledgement
      after it is read and reported. */
  lemma RoundOfSectorEnd(m: seq<byte>, rest: seq<byte>, warned: bool, r: seq<byte>, more: seq<byte>)
    requires Framed(m) && |m| >= 15 && EndsSector(m) == Success(true) && IsAck(r)
    ensures UploadRound(m + rest, warned, r + more)
            == Round(Upload(m, [Acknowledged(r).value], warned, |r|, None), |m|)
  {
    FramedChunk(m, rest);
    EndsSectorWithin(m, rest);
    AwaitTakesReply(r, more, 0x35, 0x34);
    assert (m + rest)[..|m|] == m;
  }

  /** How many of `msgs` end a sector. */
  function SectorEnds(msgs: seq<seq<byte>>): nat
  {
    if msgs == [] then 0
    else (if EndsSector(msgs[0]) == Success(true) then 1 else 0) + SectorEnds(msgs[1..])
  }

  /** The progress lines reported for `replies`, in order. */
  function AckLines(replies: seq<seq<byte>>): seq<Ack>
  {
    if replies == [] then []
    else
      var line := Acknowledged(replies[0]);
      (if line.Success? then [line.value] else []) + AckLines(replies[1..])
  }

  /** Every message of `msgs` is a framed page message. */
  predicate PageMessages(msgs: seq<seq<byte>>)
  {
    msgs == [] || (Framed(msgs[0]) && |msgs[0]| >= 15 && EndsSector(msgs[0]).Success? && PageMessages(msgs[1..]))
  }

  /** Every reply of `replies` is a sector acknowledgement. */
  predicate AckReplies(replies: seq<seq<byte>>)
  {
    replies == [] || (IsAck(replies[0]) && AckReplies(replies[1..]))
  }

  /** A chunk in front of the others. */
  lemma FlattenCons(m: seq<byte>, ms: seq<seq<byte>>)
    ensures Flatten([m] + ms) == m + Flatten(ms)
  {
    FlattenAppend([m], ms);
    assert [m][..0] == [];
  }

  /** Uploading a message that does not end a sector, then the rest. */
  lemma UploadedPage(m: seq<byte>, tail: seq<byte>, warned: bool, input: seq<byte>)
    requires Framed(m) && |m| >= 15 && EndsSector(m) == Success(false)
    ensures Uploaded(m + tail, warned, input)
            == Followed(Upload(m, [], warned, 0, None), Uploaded(tail, warned, input))
  {
    RoundOfPage(m, tail, warned, input);
    assert (m + tail)[|m|..] == tail && input[0..] == input;
  }

  /** Uploading a message that ends a sector, answered by `r`, then the
      rest. */
  lemma UploadedSectorEnd(m: seq<byte>, tail: seq<byte>, warned: bool, r: seq<byte>, more: seq<byte>)
    requires Framed(m) && |m| >= 15 && EndsSector(m) == Success(true) && IsAck(r)
    ensures Uploaded(m + tail, warned, r + more)
            == Followed(Upload(m, [Acknowledged(r).value], warned, |r|, None), Uploaded(tail, warned, more))
  {
    RoundOfSectorEnd(m, tail, warned, r, more);
    assert (m + tail)[|m|..] == tail && (r + more)[|r|..] == more;
  }

  /** A file of framed messages, uploaded to a device that answers each
      sector end with one acknowledgement in turn, is written whole, all of
      the device's answers are read, and every acknowledgement is reported,
      in order. */
  lemma {:induction false} UploadConversation(msgs: seq<seq<byte>>, replies: seq<seq<byte>>, warned: bool)
    requires PageMessages(msgs) && AckReplies(replies) && |replies| == SectorEnds(msgs)
    ensures Uploaded(Flatten(msgs), warned, Flatten(replies))
            == Upload(Flatten(msgs), AckLines(replies), warned, |Flatten(replies)|, None)
    decreases |msgs|
  {
    if msgs == [] {
      assert replies == [];
    } else {
      var m, ms := msgs[0], msgs[1..];
      assert msgs == [m] + ms;
      FlattenCons(m, ms);
      if EndsSector(m) == Success(true) {
        var r, rs := replies[0], replies[1..];
        assert replies == [r] + rs;
        FlattenCons(r, rs);
        UploadedSectorEnd(m, Flatten(ms), warned, r, Flatten(rs));
        UploadConversation(ms, rs, warned);
      } else {
        UploadedPage(m, Flatten(ms), warned, Flatten(replies));
        UploadConversation(ms, replies, warned);
      }
    }
  }
}
