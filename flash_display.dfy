/** send_display: a four-character string goes to the device's LED display
    as the upload of one page to the special index 0xFF 0x00. */
module FlashDisplay {
  import opened Common
  import opened SysexCodec
  import opened FlashProtocol
  import DumpConvert
  import FirmwareUpload

  /** The page send_display sends: the first four bytes of the string,
      then zeros up to 256 bytes. */
  function DisplayPage(s: seq<byte>): (r: seq<byte>)
    ensures |r| == 0x100 - 4 + (if |s| < 4 then |s| else 4)
    ensures |s| >= 4 ==> r[..4] == s[..4]
    ensures forall k | 4 <= k < |r| :: r[k] == 0
  {
    Slice(s, 0, 4) + Repeat(0, 0x100 - 4)
  }

  /** The packet argument: index bytes 0xFF 0x00, the checksum of the
      page, then the page. */
  function DisplayArgument(s: seq<byte>): seq<byte>
  {
    [0xff, 0x00, PageChecksum(DisplayPage(s))] + DisplayPage(s)
  }

  /** The bytes send_display writes: header with device and model 0x7F,
      the argument ciphered and exploded, then F7. Exploding fails unless
      the argument is a whole number of seven-byte groups. */
  function DisplayMessage(s: seq<byte>): Result<seq<byte>>
  {
    var t := Transported(DisplayArgument(s));
    if |t| % 7 != 0 then Failure(DataLengthNotMultipleOf7)
    else Success(DumpConvert.Header(0x7f) + Exploded(t) + [0xf7])
  }

  /** The display index 0xFF 0x00 as a dump2syx page index. */
  const DisplayIndex: nat := 0xff00

  /** A string of four bytes or more is sent as the upload of its display
      page to page 0xFF00 with model 0x7F; a shorter one leaves the
      argument short of a whole group and nothing is sent. */
  lemma DisplayIsPageUpload(s: seq<byte>)
    ensures DisplayMessage(s).Success? <==> |s| >= 4
    ensures DisplayMessage(s).Failure? ==> DisplayMessage(s).error == DataLengthNotMultipleOf7
    ensures |s| >= 4 ==>
              DisplayMessage(s).value
              == DumpConvert.UploadMessage(DisplayIndex, DisplayPage(s), 0x7f, DumpConvert.ByteSplit)
  {
    var page := DisplayPage(s);
    var t := Transported(DisplayArgument(s));
    assert |t| == 3 + |page|;
    if |s| >= 4 {
      assert DumpConvert.IndexBytes(DisplayIndex, DumpConvert.ByteSplit) == (0xff, 0x00);
      assert DisplayArgument(s) == DumpConvert.PacketArgument(0xff, 0x00, page);
    } else {
      assert |t| % 7 != 0;
    }
  }

  /** What the device reads from the display message: one framed
      Behringer upload message whose packet parses back to the display
      page at address 0x7F8000, the first four bytes being the string's. */
  lemma DisplayReadsBack(s: seq<byte>)
    requires |s| >= 4
    ensures DisplayMessage(s).Success?
    ensures var m := DisplayMessage(s).value;
            |m| == 304 && Framed(m) && FromBehringer(m) && m[5] == 0x7f && m[6] == 0x34
            && DumpConvert.ParsedPacket(m[7..|m| - 1], None) == Success(DumpConvert.Page(DisplayPage(s), 0x7f8000))
            && DumpConvert.ParsedPacket(m[7..|m| - 1], None).value.data[..4] == s[..4]
  {
    DisplayIsPageUpload(s);
    var page := DisplayPage(s);
    var m := DisplayMessage(s).value;
    FirmwareUpload.UploadMessageFramed(DisplayIndex, page, 0x7f, DumpConvert.ByteSplit);
    var p := DumpConvert.EncodedPayload(DumpConvert.PacketArgument(0xff, 0x00, page));
    assert m == DumpConvert.Header(0x7f) + p + [0xf7];
    assert m[7..|m| - 1] == p;
    DumpConvert.PacketRoundTrip(0xff, 0x00, page, None);
    assert DumpConvert.PageAddress(0xff, 0x00) == 0x7f8000;
  }

  /** send_display: build the argument, compute its checksum, cipher,
      explode and frame it, and write it. A failed explode is the
      exception that leaves the device untouched. */
  method SendDisplay(port: MidiPort, s: seq<byte>) returns (error: Option<Error>)
    modifies port
    ensures DisplayMessage(s).Success? ==>
              error == None && port.sent == old(port.sent) + DisplayMessage(s).value
    ensures DisplayMessage(s).Failure? ==>
              error == Some(DisplayMessage(s).error) && port.sent == old(port.sent)
    ensures port.inbound == old(port.inbound)
  {
    var arg := [0xff, 0x00, 0x00] + Slice(s, 0, 4) + Repeat(0, 0x100 - 4);
    assert arg[3..] == DisplayPage(s);
    var checksum := ComputePageChecksum(arg[3..]);
    arg := arg[2 := checksum];
    assert arg == DisplayArgument(s);
    var t := TransportDecode(arg);
    var exploded := Explode(t);
    if exploded.Failure? {
      return Some(exploded.error);
    }
    port.Write(DumpConvert.Header(0x7f) + exploded.value + [0xf7]);
    error := None;
  }
}
