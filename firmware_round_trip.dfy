/** What syx2dump makes of the output of dump2syx: with the 7-bit index
    split that syx_parse_packet reads, the dump comes back zero-padded to
    whole sectors; with the 8-bit split dump2syx writes, a dump that
    crosses address 0x10000 is rejected. */
module FirmwareRoundTrip {
  import opened Common
  import opened SysexCodec
  import opened DumpConvert

  /** The scanner after the upload messages of the pages `odata`, the
      first at address `base`: between frames, an image (0x34) started at
      `base`, the last page at `base + |odata| - 0x100`. */
  function After(base: nat, odata: seq<byte>): Scanner
    requires base >= 0x100
  {
    if odata == [] then Initial
    else Scanner(false, [], Some(Start(0x34, base)), Some(base + |odata| - 0x100), odata, false)
  }

  /** The first `n` ciphered sectors of a padded dump, concatenated: the
      pages the messages of dump2syx carry, in order. */
  function Sectors(padded: seq<byte>, base: nat, n: nat): (r: seq<byte>)
    requires 0x1000 * n <= |padded|
    ensures |r| == 0x1000 * n
  {
    if n == 0 then [] else Sectors(padded, base, n - 1) + Sector(padded, base, n - 1)
  }

  /** The scanner `s` after a page is appended at `address`: between
      frames, the image started at `address` unless it already was. */
  function Appended(s: Scanner, address: nat, page: seq<byte>): Scanner
  {
    Scanner(false, [], if s.start.Some? then s.start else Some(Start(0x34, address)),
            Some(address), s.odata + page, s.warned)
  }

  /** Scanning one upload message between frames hands its payload to
      syx_parse_packet: the page is appended at the address its two index
      bytes encode, unless that address does not follow the previous
      one. */
  lemma MessageScan(s: Scanner, idx: nat, page: seq<byte>, model: byte, split: IndexSplit, address: nat)
    requires Idle(s) && (s.start.None? || s.start.value.command == 0x34)
    requires |page| == 0x100 && model != 0xf7
    requires address == PageAddress(IndexBytes(idx, split).0, IndexBytes(idx, split).1)
    ensures ScanFrom(s, UploadMessage(idx, page, model, split))
         == if AddressJumps(s.lastaddr, address) then Failure(AddressJump) else Success(Appended(s, address, page))
  {
    var ib := IndexBytes(idx, split);
    var payload := EncodedPayload(PacketArgument(ib.0, ib.1, page));
    var body := [0x00, 0x20, 0x32, 0x7f, model, 0x34] + payload;
    var f := [0xf0] + body + [0xf7];
    assert UploadMessage(idx, page, model, split) == f;
    forall k | 0 <= k < |body|
      ensures body[k] != 0xf7
    {
      if k >= 6 {
        assert body[k] == payload[k - 6];
      }
    }
    FrameScan(s, body);
    assert Slice(f, 1, 4) == Manufacturer;
    assert f[6] == 0x34;
    assert Slice(f, 7, |f| - 1) == payload;
    PacketRoundTrip(ib.0, ib.1, page, s.lastaddr);
  }

  /** After the pages `prev`, the page at the next address follows the
      last one and extends the image. */
  lemma AfterAppended(base: nat, prev: seq<byte>, page: seq<byte>, address: nat)
    requires base >= 0x100 && address == base + |prev| && |page| == 0x100
    ensures !AddressJumps(After(base, prev).lastaddr, address)
    ensures Appended(After(base, prev), address, page) == After(base, prev + page)
  {
  }

  /** After the pages `prev`, the message of the next page appends it. */
  lemma PageScan(base: nat, prev: seq<byte>, idx: nat, page: seq<byte>, model: byte, split: IndexSplit, next: seq<byte>)
    requires base >= 0x100 && idx * 0x100 == base + |prev| && idx < SplitLimit(split)
    requires |page| == 0x100 && model != 0xf7 && next == prev + page
    ensures Scans(After(base, prev), UploadMessage(idx, page, model, split), After(base, next))
  {
    var address := base + |prev|;
    IndexSplitInverts(idx, split);
    AfterAppended(base, prev, page, address);
    MessageScan(After(base, prev), idx, page, model, split, address);
  }

  /** Two scans in a row. */
  lemma ScanThen(s: Scanner, a: seq<byte>, t: Scanner, b: seq<byte>, u: Scanner)
    requires Scans(s, a, t) && Scans(t, b, u)
    ensures Scans(s, a + b, u)
  {
    ScanAppend(s, a, b);
  }

  /** A chain of scans: when chunk `k` takes the scanner from state `k`
      to state `k + 1`, the concatenated chunks take it from the first
      state to the last. */
  lemma {:induction false} ScanChain(states: seq<Scanner>, chunks: seq<seq<byte>>)
    requires |states| == |chunks| + 1
    requires forall k :: 0 <= k < |chunks| ==> Scans(states[k], chunks[k], states[k + 1])
    ensures Scans(states[0], Flatten(chunks), states[|chunks|])
    decreases |chunks|
  {
    if chunks != [] {
      var m := |chunks| - 1;
      var init, last := chunks[..m], chunks[m];
      assert Flatten(chunks) == Flatten(init) + last;
      ScanChain(states[..m + 1], init);
      ScanThen(states[0], Flatten(init), states[m], last, states[m + 1]);
    }
  }

  /** The upload messages of the first `n` pages of a sector, one chunk
      per page. */
  function PageMessages(sector: seq<byte>, idx: nat, model: byte, split: IndexSplit, n: nat): (r: seq<seq<byte>>)
    requires 0x100 * n <= |sector|
    ensures |r| == n
  {
    if n == 0 then []
    else PageMessages(sector, idx, model, split, n - 1)
         + [UploadMessage(idx + n - 1, sector[0x100 * (n - 1) .. 0x100 * n], model, split)]
  }

  lemma {:induction false} PageMessagesFlatten(sector: seq<byte>, idx: nat, model: byte, split: IndexSplit, n: nat)
    requires 0x100 * n <= |sector|
    ensures Flatten(PageMessages(sector, idx, model, split, n)) == SectorMessages(sector, idx, model, split, n)
    decreases n
  {
    if n > 0 {
      var init := PageMessages(sector, idx, model, split, n - 1);
      var last := UploadMessage(idx + n - 1, sector[0x100 * (n - 1) .. 0x100 * n], model, split);
      PageMessagesFlatten(sector, idx, model, split, n - 1);
      FlattenSnoc(init, last);
    }
  }

  /** The last page message, with its page number and index named. */
  lemma PageMessageRenamed(sector: seq<byte>, idx: nat, model: byte, split: IndexSplit, n: nat, k: nat, j: nat)
    requires 0x100 * n <= |sector| && k + 1 == n && j == idx + k
    ensures UploadMessage(idx + n - 1, sector[0x100 * (n - 1) .. 0x100 * n], model, split)
         == UploadMessage(j, sector[0x100 * k .. 0x100 * (k + 1)], model, split)
  {
    var page := sector[0x100 * k .. 0x100 * (k + 1)];
    assert sector[0x100 * (n - 1) .. 0x100 * n] == page;
    assert idx + n - 1 == j;
  }

  lemma {:induction false} PageMessageAt(sector: seq<byte>, idx: nat, model: byte, split: IndexSplit, n: nat, k: nat, j: nat)
    requires 0x100 * n <= |sector| && k < n && j == idx + k
    ensures PageMessages(sector, idx, model, split, n)[k]
         == UploadMessage(j, sector[0x100 * k .. 0x100 * (k + 1)], model, split)
    decreases n
  {
    if k < n - 1 {
      PageMessageAt(sector, idx, model, split, n - 1, k, j);
    } else {
      PageMessageRenamed(sector, idx, model, split, n, k, j);
    }
  }

  /** The scanner after each of the first `n` pages of a sector. */
  function PageStates(base: nat, odata: seq<byte>, sector: seq<byte>, n: nat): (r: seq<Scanner>)
    requires base >= 0x100 && 0x100 * n <= |sector|
    ensures |r| == n + 1
    ensures forall k :: 0 <= k <= n ==> r[k] == After(base, odata + sector[..0x100 * k])
  {
    seq(n + 1, k requires 0 <= k <= n => After(base, odata + sector[..0x100 * k]))
  }

  /** Page `k` of a sector, read back after the pages before it. */
  lemma PageStep(base: nat, odata: seq<byte>, sector: seq<byte>, idx: nat, model: byte, split: IndexSplit, k: nat, j: nat)
    requires base >= 0x100 && idx * 0x100 == base + |odata| && j == idx + k
    requires 0x100 * (k + 1) <= |sector| && j < SplitLimit(split) && model != 0xf7
    ensures Scans(After(base, odata + sector[..0x100 * k]),
                  UploadMessage(j, sector[0x100 * k .. 0x100 * (k + 1)], model, split),
                  After(base, odata + sector[..0x100 * (k + 1)]))
  {
    AppendSlices(odata, sector, 0x100 * k, 0x100 * (k + 1));
    PageScan(base, odata + sector[..0x100 * k], j, sector[0x100 * k .. 0x100 * (k + 1)], model, split, odata + sector[..0x100 * (k + 1)]);
  }

  /** The messages of the first `n` pages of a sector, read back after
      the pages `odata`, append those `n` pages when their indices stay
      below the limit of the split. */
  lemma SectorScan(base: nat, odata: seq<byte>, sector: seq<byte>, idx: nat,
                   model: byte, split: IndexSplit, n: nat)
    requires base >= 0x100 && idx * 0x100 == base + |odata|
    requires 0x100 * n <= |sector| && idx + n <= SplitLimit(split) && model != 0xf7
    ensures Scans(After(base, odata), SectorMessages(sector, idx, model, split, n),
                  After(base, odata + sector[..0x100 * n]))
  {
    var chunks := PageMessages(sector, idx, model, split, n);
    var states := PageStates(base, odata, sector, n);
    forall k | 0 <= k < n
      ensures Scans(states[k], chunks[k], states[k + 1])
    {
      var j := idx + k;
      PageMessageAt(sector, idx, model, split, n, k, j);
      PageStep(base, odata, sector, idx, model, split, k, j);
    }
    ScanChain(states, chunks);
    PageMessagesFlatten(sector, idx, model, split, n);
    assert odata + sector[..0x100 * 0] == odata;
  }

  /** The upload messages of the first `n` sectors, one chunk per
      sector. */
  function SectorChunks(padded: seq<byte>, base: nat, model: byte, split: IndexSplit, n: nat): (r: seq<seq<byte>>)
    requires 0x1000 * n <= |padded|
    ensures |r| == n
  {
    seq(n, k requires 0 <= k < n => SectorMessages(Sector(padded, base, k), (base + 0x1000 * k) / 0x100, model, split, 16))
  }

  lemma {:induction false} SectorChunksFlatten(padded: seq<byte>, base: nat, model: byte, split: IndexSplit, n: nat)
    requires 0x1000 * n <= |padded|
    ensures Flatten(SectorChunks(padded, base, model, split, n)) == DumpMessages(padded, base, model, split, n)
    decreases n
  {
    if n > 0 {
      var m := n - 1;
      var sector, idx := Sector(padded, base, m), (base + 0x1000 * m) / 0x100;
      var init := SectorChunks(padded, base, model, split, m);
      var last := SectorMessages(sector, idx, model, split, 16);
      SectorChunksFlatten(padded, base, model, split, m);
      SectorChunksLast(padded, base, model, split, n, m, sector, idx);
      DumpMessagesLast(padded, base, model, split, n, m, sector, idx);
      FlattenSnoc(init, last);
    }
  }

  /** The chunks of the first `n` sectors, with the last sector and its
      first page index named. */
  lemma SectorChunksLast(padded: seq<byte>, base: nat, model: byte, split: IndexSplit, n: nat, m: nat,
                         sector: seq<byte>, idx: nat)
    requires m + 1 == n && 0x1000 * n <= |padded|
    requires sector == Sector(padded, base, m) && idx == (base + 0x1000 * m) / 0x100
    ensures SectorChunks(padded, base, model, split, n)
         == SectorChunks(padded, base, model, split, m) + [SectorMessages(sector, idx, model, split, 16)]
  {
    var whole := SectorChunks(padded, base, model, split, n);
    var init := SectorChunks(padded, base, model, split, m);
    assert whole[..m] == init;
    assert whole == whole[..m] + [whole[m]];
  }

  /** The chunk of sector `k`, with the sector and its first page index
      named. */
  lemma SectorChunkAt(padded: seq<byte>, base: nat, model: byte, split: IndexSplit, n: nat, k: nat,
                      sector: seq<byte>, idx: nat)
    requires 0x1000 * n <= |padded| && k < n
    requires sector == Sector(padded, base, k) && idx == (base + 0x1000 * k) / 0x100
    ensures SectorChunks(padded, base, model, split, n)[k] == SectorMessages(sector, idx, model, split, 16)
  {
  }

  /** The scanner after each of the first `n` sectors. */
  function SectorStates(padded: seq<byte>, base: nat, n: nat): (r: seq<Scanner>)
    requires base >= 0x100 && 0x1000 * n <= |padded|
    ensures |r| == n + 1
    ensures forall k :: 0 <= k <= n ==> r[k] == After(base, Sectors(padded, base, k))
  {
    seq(n + 1, k requires 0 <= k <= n => After(base, Sectors(padded, base, k)))
  }

  /** Sector `k` of an aligned dump starts at page `idx`, and its sixteen
      pages have indices below `limit` when the sector ends below
      `0x100 * limit`. */
  lemma SectorStart(base: nat, k: nat, idx: nat, limit: nat)
    requires base % 0x1000 == 0 && idx == (base + 0x1000 * k) / 0x100
    requires base + 0x1000 * (k + 1) <= 0x100 * limit
    ensures idx * 0x100 == base + 0x1000 * k && idx + 16 <= limit
  {
    SectorAligned(base, k);
  }

  /** Sector `k` of a dump, read back after the sectors before it. */
  lemma SectorStep(padded: seq<byte>, base: nat, model: byte, split: IndexSplit, k: nat)
    requires base % 0x1000 == 0 && base >= 0x2000 && model != 0xf7
    requires 0x1000 * (k + 1) <= |padded| && base + 0x1000 * (k + 1) <= 0x100 * SplitLimit(split)
    ensures Scans(After(base, Sectors(padded, base, k)),
                  SectorMessages(Sector(padded, base, k), (base + 0x1000 * k) / 0x100, model, split, 16),
                  After(base, Sectors(padded, base, k + 1)))
  {
    var prev := Sectors(padded, base, k);
    var sector := Sector(padded, base, k);
    var idx := (base + 0x1000 * k) / 0x100;
    SectorStart(base, k, idx, SplitLimit(split));
    SectorScan(base, prev, sector, idx, model, split, 16);
    assert sector[..0x100 * 16] == sector;
  }

  /** The messages of the first `n` sectors, read back from the start,
      give the first `n` ciphered sectors, as long as every page index
      stays below the limit of the split. */
  lemma DumpScan(padded: seq<byte>, base: nat, model: byte, split: IndexSplit, n: nat)
    requires base % 0x1000 == 0 && base >= 0x2000 && model != 0xf7
    requires 0x1000 * n <= |padded| && base + 0x1000 * n <= 0x100 * SplitLimit(split)
    ensures Scans(Initial, DumpMessages(padded, base, model, split, n), After(base, Sectors(padded, base, n)))
  {
    var chunks := SectorChunks(padded, base, model, split, n);
    var states := SectorStates(padded, base, n);
    forall k | 0 <= k < n
      ensures Scans(states[k], chunks[k], states[k + 1])
    {
      var sector, idx := Sector(padded, base, k), (base + 0x1000 * k) / 0x100;
      SectorChunkAt(padded, base, model, split, n, k, sector, idx);
      SectorStep(padded, base, model, split, k);
    }
    ScanChain(states, chunks);
    SectorChunksFlatten(padded, base, model, split, n);
  }

  /** The messages of the first `n` sectors, with the last sector and its
      first page index named. */
  lemma DumpMessagesLast(padded: seq<byte>, base: nat, model: byte, split: IndexSplit, n: nat, m: nat,
                         sector: seq<byte>, idx: nat)
    requires m + 1 == n && 0x1000 * n <= |padded|
    requires sector == Sector(padded, base, m) && idx == (base + 0x1000 * m) / 0x100
    ensures DumpMessages(padded, base, model, split, n)
         == DumpMessages(padded, base, model, split, m) + SectorMessages(sector, idx, model, split, 16)
  {
    assert n != 0 && n - 1 == m && 0x1000 * (n - 1) == 0x1000 * m;
  }

  /** Sector `k` sits at offset `0x1000 * k` of the concatenation. */
  lemma {:induction false} SectorsAt(padded: seq<byte>, base: nat, n: nat, k: nat)
    requires k < n && 0x1000 * n <= |padded|
    ensures Sectors(padded, base, n)[0x1000 * k .. 0x1000 * k + 0x1000] == Sector(padded, base, k)
    decreases n
  {
    var prev := Sectors(padded, base, n - 1);
    if k < n - 1 {
      SectorsAt(padded, base, n - 1, k);
      assert Sectors(padded, base, n)[..0x1000 * (n - 1)] == prev;
    } else {
      assert Sectors(padded, base, n)[0x1000 * k ..] == Sector(padded, base, k);
    }
  }

  /** The final loop of syx2dump, started with the dump's base address,
      undoes the write cipher of every sector from sector `k` on. */
  lemma {:induction false} DecipherSectors(padded: seq<byte>, base: nat, n: nat, k: nat)
    requires |padded| == 0x1000 * n && k <= n
    ensures ChunksDeciphered(Sectors(padded, base, n), 0x1000 * k, base) == Success(padded[0x1000 * k ..])
    decreases n - k
  {
    var data := Sectors(padded, base, n);
    if k < n {
      DecipherSectors(padded, base, n, k + 1);
      SectorsAt(padded, base, n, k);
      var plain := padded[0x1000 * k .. 0x1000 * k + 0x1000];
      var seed := (base + 0x1000 * k) / 0x1000;
      assert Slice(data, 0x1000 * k, 0x1000 * k + 0x1000) == WriteCiphered(plain, seed);
      assert (0x1000 * k + base) / 0x1000 == seed;
      WriteCipherInvolution(plain, seed);
      assert 0x1000 * k + 0x1000 == 0x1000 * (k + 1);
      assert padded[0x1000 * k ..] == plain + padded[0x1000 * (k + 1) ..];
    } else {
      assert padded[0x1000 * k ..] == [];
    }
  }

  /** With the 7-bit index split, syx2dump gives back the dump dump2syx
      was given, zero-padded to whole sectors, for every aligned base from
      0x2000 up to the end of the address range the split can express. */
  lemma Syx2DumpInvertsDump2Syx(idata: seq<byte>, base: nat, model: byte)
    requires base % 0x1000 == 0 && base >= 0x2000 && model != 0xf7
    requires base + |ZeroPadded(idata)| <= 0x80_0000
    ensures DumpStream(idata, base, model, SevenBitSplit).Success?
    ensures StreamDump(DumpStream(idata, base, model, SevenBitSplit).value) == Success(ZeroPadded(idata))
  {
    var padded := ZeroPadded(idata);
    var n := |padded| / 0x1000;
    assert |padded| == 0x1000 * n;
    DumpScan(padded, base, model, SevenBitSplit, n);
    if n > 0 {
      DecipherSectors(padded, base, n, 0);
    }
  }

  /** The first message of a sector is the message of its first page. */
  lemma {:induction false} SectorMessagesStart(sector: seq<byte>, idx: nat, model: byte, split: IndexSplit, n: nat)
    requires 1 <= n && 0x100 * n <= |sector|
    ensures SectorMessages(sector, idx, model, split, n)[..304] == UploadMessage(idx, sector[..0x100], model, split)
    decreases n
  {
    if n > 1 {
      SectorMessagesStart(sector, idx, model, split, n - 1);
    }
  }

  /** Page index 0x100 split into two bytes is 1, 0, the address of page
      0x80, which does not follow page 0xFF. */
  lemma IndexWrapsAt64K()
    ensures IndexBytes(0x100, ByteSplit) == (1, 0)
    ensures PageAddress(1, 0) == 0x8000 && AddressJumps(Some(0xff00), PageAddress(1, 0))
  {
  }

  /** A scan that fails stops there. */
  lemma ScanFails(s: Scanner, a: seq<byte>, b: seq<byte>)
    requires ScanFrom(s, a).Failure?
    ensures ScanFrom(s, a + b) == ScanFrom(s, a)
  {
    ScanAppend(s, a, b);
  }

  /** A scan that succeeds goes on from where it ended. */
  lemma ScanGoesOn(s: Scanner, a: seq<byte>, t: Scanner, b: seq<byte>)
    requires ScanFrom(s, a) == Success(t)
    ensures ScanFrom(s, a + b) == ScanFrom(t, b)
  {
    ScanAppend(s, a, b);
  }

  /** With the 8-bit split, the messages of the sector at 0x10000 are
      rejected after the sector at 0xF000: the first one carries page
      index 0x100, read back as address 0x8000. */
  lemma SectorAt64KRejected(padded: seq<byte>, model: byte)
    requires |padded| == 0x2000 && model != 0xf7
    ensures ScanFrom(After(0xf000, Sectors(padded, 0xf000, 1)),
                     SectorMessages(Sector(padded, 0xf000, 1), 0x100, model, ByteSplit, 16))
         == Failure(AddressJump)
  {
    var s := After(0xf000, Sectors(padded, 0xf000, 1));
    var sector := Sector(padded, 0xf000, 1);
    var messages := SectorMessages(sector, 0x100, model, ByteSplit, 16);
    var page := sector[..0x100];
    var message := UploadMessage(0x100, page, model, ByteSplit);
    SectorMessagesStart(sector, 0x100, model, ByteSplit, 16);
    assert messages == message + messages[304..];
    assert s.lastaddr == Some(0xff00);
    IndexWrapsAt64K();
    MessageScan(s, 0x100, page, model, ByteSplit, 0x8000);
    ScanFails(s, message, messages[304..]);
  }

  /** dump2syx as written (8-bit index split), from base 0xF000 with a
      dump of two sectors: page index 0x100 is written as the bytes 1, 0,
      which syx_parse_packet reads as address 0x8000 instead of 0x10000,
      so syx2dump rejects the stream with an address jump. */
  lemma Dump2SyxRejectedAcross64K(idata: seq<byte>, model: byte)
    requires 0x1000 < |idata| <= 0x2000 && model != 0xf7
    ensures DumpStream(idata, 0xf000, model, ByteSplit).Success?
    ensures StreamDump(DumpStream(idata, 0xf000, model, ByteSplit).value) == Failure(AddressJump)
  {
    var padded := ZeroPadded(idata);
    assert |padded| == 0x2000;
    var n := |padded| / 0x1000;
    assert n == 2;
    var head := DumpMessages(padded, 0xf000, model, ByteSplit, 1);
    var sector := Sector(padded, 0xf000, 1);
    var rest := SectorMessages(sector, 0x100, model, ByteSplit, 16);
    DumpMessagesLast(padded, 0xf000, model, ByteSplit, n, 1, sector, 0x100);
    DumpScan(padded, 0xf000, model, ByteSplit, 1);
    SectorAt64KRejected(padded, model);
    ScanGoesOn(Initial, head, After(0xf000, Sectors(padded, 0xf000, 1)), rest);
  }
}
