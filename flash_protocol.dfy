/** The device side of bcfwflash.py: receiving and checking SysEx replies,
    uploading a firmware stream with flow control, fetching flash pages and
    putting a string on the display. The MIDI device file is a `MidiPort`
    holding the bytes the device will still send; reading past them stands
    for the `select` timeout. */
module FlashProtocol {
  import opened Common
  import opened SysexCodec

  /** The open MIDI device file `f`. */
  class MidiPort {
    /** The bytes the device sends from now on, in order. */
    var inbound: seq<byte>
    /** Everything written to the device so far. */
    var sent: seq<byte>

    constructor (inbound: seq<byte>)
      ensures this.inbound == inbound && sent == []
    {
      this.inbound := inbound;
      sent := [];
    }

    /** `select` then `f.read(1)`: nothing arrives once the input is used
        up, which is the timeout. */
    method Read() returns (c: Option<byte>)
      modifies this
      ensures old(inbound) == [] ==> c == None && inbound == old(inbound)
      ensures old(inbound) != [] ==> c == Some(old(inbound)[0]) && inbound == old(inbound)[1..]
      ensures sent == old(sent)
    {
      if inbound == [] {
        c := None;
      } else {
        c := Some(inbound[0]);
        inbound := inbound[1..];
      }
    }

    /** `f.write(array2str(data))` and `f.flush()`. */
    method Write(data: seq<byte>)
      modifies this
      ensures sent == old(sent) + data && inbound == old(inbound)
    {
      sent := sent + data;
    }
  }

  // ---------------------------------------------------------------------
  // midi_receive_sysex

  /** The position of the first `x` in `s`. */
  function FindFirst(s: seq<byte>, x: byte): (r: Option<nat>)
    ensures r.Some? ==> r.value < |s| && s[r.value] == x
  {
    if s == [] then None
    else if s[0] == x then Some(0)
    else match FindFirst(s[1..], x)
      case None => None
      case Some(k) => Some(k + 1)
  }

  /** FindFirst finds nothing exactly when `x` does not occur, and no `x`
      comes before the position it reports. */
  lemma {:induction false} FindFirstSpec(s: seq<byte>, x: byte)
    ensures FindFirst(s, x).None? <==> x !in s
    ensures FindFirst(s, x).Some? ==> x !in s[..FindFirst(s, x).value]
    decreases |s|
  {
    if s != [] && s[0] != x {
      FindFirstSpec(s[1..], x);
      assert s == [s[0]] + s[1..];
      match FindFirst(s[1..], x)
      case None =>
      case Some(k) =>
        assert s[..k + 1] == [s[0]] + s[1..][..k];
    }
  }

  /** The position of the last `x` in `s`. */
  function FindLast(s: seq<byte>, x: byte): (r: Option<nat>)
    ensures r.Some? ==> r.value < |s| && s[r.value] == x
  {
    if s == [] then None
    else if s[|s| - 1] == x then Some(|s| - 1)
    else FindLast(s[..|s| - 1], x)
  }

  /** FindLast finds nothing exactly when `x` does not occur, and no `x`
      comes after the position it reports. */
  lemma {:induction false} FindLastSpec(s: seq<byte>, x: byte)
    ensures FindLast(s, x).None? <==> x !in s
    ensures FindLast(s, x).Some? ==> x !in s[FindLast(s, x).value + 1..]
    decreases |s|
  {
    if s != [] && s[|s| - 1] != x {
      var init := s[..|s| - 1];
      FindLastSpec(init, x);
      assert s == init + [s[|s| - 1]];
      match FindLast(init, x)
      case None =>
      case Some(k) =>
        assert s[k + 1..] == init[k + 1..] + [s[|s| - 1]];
    }
  }

  /** A first occurrence is the one FindFirst reports. */
  lemma FindFirstIs(s: seq<byte>, x: byte, k: nat)
    requires k < |s| && s[k] == x && x !in s[..k]
    ensures FindFirst(s, x) == Some(k)
  {
    FindFirstSpec(s, x);
    var r := FindFirst(s, x).value;
    assert forall t | 0 <= t < k :: s[..k][t] == s[t];
    assert forall t | 0 <= t < r :: s[..r][t] == s[t];
  }

  /** A last occurrence is the one FindLast reports. */
  lemma FindLastIs(s: seq<byte>, x: byte, k: nat)
    requires k < |s| && s[k] == x && x !in s[k + 1..]
    ensures FindLast(s, x) == Some(k)
  {
    FindLastSpec(s, x);
    var r := FindLast(s, x).value;
    assert forall t | k < t < |s| :: s[k + 1..][t - k - 1] == s[t];
    assert forall t | r < t < |s| :: s[r + 1..][t - r - 1] == s[t];
  }

  /** The result of reading a message: the message, or None on timeout,
      and the number of bytes consumed. */
  datatype Received = Received(msg: Option<seq<byte>>, used: nat)

  /** midi_receive_sysex, stated directly: reading stops at the first 0xF7.
      The message runs from the last 0xF0 before it to that 0xF7; with no
      0xF0 before it the 0xF7 alone is returned; with no 0xF7 at all the
      input runs out and nothing is returned. */
  function NextMessage(input: seq<byte>): (r: Received)
    ensures r.used <= |input|
    ensures r.msg.Some? ==> 1 <= r.used && 1 <= |r.msg.value| && r.msg.value[|r.msg.value| - 1] == 0xf7
  {
    match FindFirst(input, 0xf7)
    case None => Received(None, |input|)
    case Some(k) =>
      match FindLast(input[..k], 0xf0)
      case None => Received(Some([0xf7]), k + 1)
      case Some(j) => Received(Some(input[j..k + 1]), k + 1)
  }

  /** The buffer after reading `p`, which holds no 0xF7: empty until an
      0xF0 arrives, then everything from the last 0xF0 on. */
  function Pending(p: seq<byte>): seq<byte>
  {
    match FindLast(p, 0xf0)
    case None => []
    case Some(j) => p[j..]
  }

  /** An 0xF0 starts the buffer afresh. */
  lemma PendingStart(p: seq<byte>, c: byte)
    requires c == 0xf0
    ensures FindLast(p + [c], 0xf0) == Some(|p|) && Pending(p + [c]) == [c]
  {
    assert (p + [c])[|p|..] == [c];
  }

  /** Any other byte but 0xF7 joins an open buffer and is dropped otherwise. */
  lemma PendingData(p: seq<byte>, c: byte)
    requires c != 0xf0
    ensures FindLast(p + [c], 0xf0) == FindLast(p, 0xf0)
    ensures Pending(p + [c]) == if FindLast(p, 0xf0).Some? then Pending(p) + [c] else []
  {
    var s := p + [c];
    var r := FindLast(s, 0xf0);
    assert s[..|s| - 1] == p;
    if r.Some? {
      assert p[r.value + 1..] + [c] == s[r.value + 1..];
    }
  }

  /** An 0xF7 ends the read: the message is the open buffer with the 0xF7
      behind it, or the 0xF7 alone. */
  lemma PendingEnd(input: seq<byte>, i: nat, buffer: seq<byte>)
    requires i < |input| && input[i] == 0xf7 && 0xf7 !in input[..i]
    requires buffer == Pending(input[..i])
    ensures NextMessage(input) == Received(Some(buffer + [input[i]]), i + 1)
  {
    FindFirstIs(input, 0xf7, i);
    var p := input[..i];
    match FindLast(p, 0xf0)
    case None =>
      assert buffer + [input[i]] == [0xf7];
    case Some(j) =>
      assert input[j..i + 1] == p[j..] + [0xf7];
  }

  /** With no 0xF7 in the input, it runs out first. */
  lemma NoEnd(input: seq<byte>)
    requires 0xf7 !in input
    ensures NextMessage(input) == Received(None, |input|)
  {
    FindFirstSpec(input, 0xf7);
  }

  /** midi_receive_sysex: reads one byte at a time until an 0xF7 closes a
      non-empty buffer, or returns None when the input runs out. */
  method ReceiveSysex(port: MidiPort) returns (r: Option<seq<byte>>)
    modifies port
    ensures r == NextMessage(old(port.inbound)).msg
    ensures port.inbound == old(port.inbound)[NextMessage(old(port.inbound)).used..]
    ensures port.sent == old(port.sent)
  {
    ghost var input := port.inbound;
    ghost var i: nat := 0;
    ghost var done := false;
    var sysex: seq<byte> := [];
    var insysex := false;
    while |sysex| == 0 || insysex
      invariant i <= |input| && port.inbound == input[i..] && port.sent == old(port.sent)
      invariant !done ==> 0xf7 !in input[..i] && insysex == FindLast(input[..i], 0xf0).Some?
                          && sysex == Pending(input[..i])
      invariant done ==> NextMessage(input) == Received(Some(sysex), i) && sysex != [] && !insysex
      invariant !done ==> (|sysex| == 0 || insysex)
      decreases |port.inbound|, if done then 0 else 1
    {
      assert !done;
      var b := port.Read();
      if b.None? {
        assert input[..i] == input;
        NoEnd(input);
        return None;
      }
      var c := b.value;
      assert c == input[i] && input[..i + 1] == input[..i] + [c];
      if c == 0xf0 {
        PendingStart(input[..i], c);
        sysex := [c];
        insysex := true;
      } else if c == 0xf7 {
        PendingEnd(input, i, sysex);
        sysex := sysex + [c];
        insysex := false;
        done := true;
      } else {
        PendingData(input[..i], c);
        if insysex {
          sysex := sysex + [c];
        }
      }
      i := i + 1;
    }
    r := Some(sysex);
  }

  // ---------------------------------------------------------------------
  // midi_check_sysex

  /** A message from a Behringer device: manufacturer bytes 00 20 32 and
      room for a command byte at index 6. */
  predicate FromBehringer(s: seq<byte>)
  {
    |s| >= 7 && s[1..4] == [0x00, 0x20, 0x32]
  }

  /** A BCFWException: raised, or swallowed into None when `exceptions` is
      off. */
  function Refuse(e: Error, exceptions: bool): Result<Option<byte>>
  {
    if exceptions then Failure(e) else Success(None)
  }

  /** midi_check_sysex: the checks in the order the script makes them. */
  function CheckSysex(sysex: Option<seq<byte>>, cmds: seq<byte>, exceptions: bool): Result<Option<byte>>
  {
    if sysex.None? || sysex.value == [] then Refuse(Timeout, exceptions)
    else
      var s := sysex.value;
      if Slice(s, 1, 4) != [0x00, 0x20, 0x32] then
        if |s| < 4 then Failure(IndexOutOfRange) else Refuse(UnexpectedManufacturer, exceptions)
      else if |s| < 7 then Failure(IndexOutOfRange)
      else if s[6] !in cmds then Refuse(UnexpectedCommand, exceptions)
      else Success(Some(s[6]))
  }

  /** What midi_check_sysex decides: the command byte exactly for a
      Behringer message whose command is one of `cmds`. A timeout, another
      manufacturer or another command is refused, raising only when
      `exceptions` is on; a message too short to index or format raises an
      IndexError, which escapes even with `exceptions` off. */
  lemma CheckSysexOutcome(sysex: Option<seq<byte>>, cmds: seq<byte>, exceptions: bool)
    ensures var r := CheckSysex(sysex, cmds, exceptions);
            && ((r.Success? && r.value.Some?) <==> (sysex.Some? && FromBehringer(sysex.value) && sysex.value[6] in cmds))
            && (r.Success? && r.value.Some? ==> r.value.value == sysex.value[6])
            && (r.Success? && exceptions ==> r.value.Some?)
            && (r.Failure? && !exceptions ==> r.error == IndexOutOfRange)
            && (r == Failure(IndexOutOfRange) ==> sysex.Some? && 0 < |sysex.value| < 7)
  {
  }

  // ---------------------------------------------------------------------
  // Waiting for a reply while the device echoes requests back

  /** The outcome of waiting for a reply: the reply message or the error,
      and the number of bytes consumed. */
  datatype Reply = Reply(result: Result<seq<byte>>, used: nat)

  /** A Behringer message carrying command `echo`. */
  predicate Echoed(msg: Option<seq<byte>>, echo: byte)
  {
    msg.Some? && FromBehringer(msg.value) && msg.value[6] == echo
  }

  /** The wait loop of flash_get_blob and flash_upload, stated directly:
      messages carrying the `echo` command are skipped; the first other
      message must pass the strict check for the `reply` command. */
  function Awaited(input: seq<byte>, reply: byte, echo: byte): (r: Reply)
    ensures r.used <= |input|
    ensures r.result.Success? ==> FromBehringer(r.result.value) && r.result.value[6] == reply
    decreases |input|
  {
    var n := NextMessage(input);
    if Echoed(n.msg, echo) then
      var rest := Awaited(input[n.used..], reply, echo);
      Reply(rest.result, n.used + rest.used)
    else
      CheckSysexOutcome(n.msg, [reply], true);
      match CheckSysex(n.msg, [reply], true)
      case Failure(e) => Reply(Failure(e), n.used)
      case Success(_) => Reply(Success(n.msg.value), n.used)
  }

  /** The lenient check in the wait loop singles out exactly the echoes,
      and where it stops, the strict check after the loop raises what
      escaped it or accepts what it accepted. */
  lemma LenientThenStrict(sysex: Option<seq<byte>>, reply: byte, echo: byte)
    ensures CheckSysex(sysex, [reply, echo], false) == Success(Some(echo)) <==> Echoed(sysex, echo)
    ensures CheckSysex(sysex, [reply, echo], false).Failure?
            ==> CheckSysex(sysex, [reply], true) == CheckSysex(sysex, [reply, echo], false)
  {
    CheckSysexOutcome(sysex, [reply, echo], false);
  }

  /** A reply found `pos` bytes into the input. */
  function Shift(r: Reply, pos: nat): Reply
  {
    Reply(r.result, pos + r.used)
  }

  /** Skipping one echoed message found `pos` bytes into the input. */
  lemma AwaitSkip(input: seq<byte>, pos: nat, used: nat, next: nat, reply: byte, echo: byte)
    requires pos <= |input| && used == NextMessage(input[pos..]).used && next == pos + used
    requires Echoed(NextMessage(input[pos..]).msg, echo)
    ensures 1 <= used && input[pos..][used..] == input[next..]
    ensures Shift(Awaited(input[pos..], reply, echo), pos) == Shift(Awaited(input[next..], reply, echo), next)
  {
    assert input[pos..][used..] == input[next..];
  }

  /** midi_receive_sysex and midi_check_sysex in the loop that skips
      echoed requests, then the strict check of the reply. */
  method AwaitReply(port: MidiPort, reply: byte, echo: byte) returns (r: Result<seq<byte>>)
    modifies port
    ensures r == Awaited(old(port.inbound), reply, echo).result
    ensures port.inbound == old(port.inbound)[Awaited(old(port.inbound), reply, echo).used..]
    ensures port.sent == old(port.sent)
  {
    ghost var input := port.inbound;
    ghost var pos: nat := 0;
    assert input[pos..] == input;
    var sysex := ReceiveSysex(port);
    var c := CheckSysex(sysex, [reply, echo], false);
    while c == Success(Some(echo))
      invariant pos <= |input| && port.sent == old(port.sent)
      invariant sysex == NextMessage(input[pos..]).msg
      invariant port.inbound == input[pos..][NextMessage(input[pos..]).used..]
      invariant c == CheckSysex(sysex, [reply, echo], false)
      invariant Shift(Awaited(input, reply, echo), 0) == Shift(Awaited(input[pos..], reply, echo), pos)
      decreases |input| - pos
    {
      LenientThenStrict(sysex, reply, echo);
      ghost var used := NextMessage(input[pos..]).used;
      ghost var next := pos + used;
      AwaitSkip(input, pos, used, next, reply, echo);
      pos := next;
      sysex := ReceiveSysex(port);
      c := CheckSysex(sysex, [reply, echo], false);
    }
    LenientThenStrict(sysex, reply, echo);
    if c.Failure? {
      return Failure(c.error);
    }
    var strict := CheckSysex(sysex, [reply], true);
    if strict.Failure? {
      return Failure(strict.error);
    }
    r := Success(sysex.value);
  }

  /** A well-formed message on the wire: 0xF0, then no delimiter until the
      closing 0xF7. */
  predicate Framed(f: seq<byte>)
  {
    |f| >= 2 && f[0] == 0xf0 && f[|f| - 1] == 0xf7
    && forall i | 0 < i < |f| - 1 :: f[i] != 0xf0 && f[i] != 0xf7
  }

  /** A framed message at the head of the input is what is read next. */
  lemma FramedFirst(f: seq<byte>, rest: seq<byte>)
    requires Framed(f)
    ensures NextMessage(f + rest) == Received(Some(f), |f|)
  {
    var input, k := f + rest, |f| - 1;
    assert input[..k] == f[..k];
    assert forall i | 0 <= i < k :: f[..k][i] == f[i];
    FindFirstIs(input, 0xf7, k);
    assert forall i | 0 <= i < k - 1 :: f[..k][1..][i] == f[i + 1];
    FindLastIs(f[..k], 0xf0, 0);
    assert input[0..k + 1] == f;
  }

  /** The next message is an echo: it is skipped. */
  lemma AwaitSkipsEcho(e: seq<byte>, rest: seq<byte>, reply: byte, echo: byte)
    requires Framed(e) && FromBehringer(e) && e[6] == echo
    ensures Awaited(e + rest, reply, echo) == Shift(Awaited(rest, reply, echo), |e|)
  {
    FramedFirst(e, rest);
    assert (e + rest)[|e|..] == rest;
  }

  /** The next message is the reply: it is returned whole. */
  lemma AwaitTakesReply(f: seq<byte>, rest: seq<byte>, reply: byte, echo: byte)
    requires Framed(f) && FromBehringer(f) && f[6] == reply && reply != echo
    ensures Awaited(f + rest, reply, echo) == Reply(Success(f), |f|)
  {
    FramedFirst(f, rest);
    assert Slice(f, 1, 4) == [0x00, 0x20, 0x32];
    assert CheckSysex(Some(f), [reply, echo], false) == Success(Some(reply));
    assert CheckSysex(Some(f), [reply], true) == Success(Some(reply));
  }

  // ---------------------------------------------------------------------
  // flash_get_blob and flash_get

  /** An exchange with the device: the result, the bytes sent and the
      number of bytes consumed. */
  datatype Exchange = Exchange(result: Result<seq<byte>>, sent: seq<byte>, used: nat)

  /** The request for one flash page. `page >> 7` becomes a byte only when
      it lies in 0..0xFF; otherwise `chr` raises before anything is sent. */
  function PageRequest(page: int): (r: Result<seq<byte>>)
    ensures r.Success? <==> 0 <= page < 0x8000
    ensures r.Success? ==> |r.value| == 10 && FromBehringer(r.value) && r.value[6] == 0x74
    ensures r.Success? ==> (r.value[7] as int) * 0x80 + (r.value[8] as int) == page && r.value[8] < 0x80
  {
    if 0 <= page / 0x80 <= 0xff then
      Success([0xf0, 0x00, 0x20, 0x32, 0x7f, 0x7f, 0x74, page / 0x80, page % 0x80, 0xf7])
    else Failure(ByteOutOfRange)
  }

  /** flash_get_blob: sends the request, waits for the 0x34 page message
      while skipping the request echoed back, and renames its command to
      0x74. */
  function GetBlob(page: int, input: seq<byte>): (r: Exchange)
    ensures r.used <= |input|
    ensures r.result.Success? ==> FromBehringer(r.result.value) && r.result.value[6] == 0x74
  {
    match PageRequest(page)
    case Failure(e) => Exchange(Failure(e), [], 0)
    case Success(request) =>
      var a := Awaited(input, 0x34, 0x74);
      if a.result.Failure? then Exchange(a.result, request, a.used)
      else
        var blob := a.result.value[6 := 0x74];
        assert blob[1..4] == a.result.value[1..4];
        Exchange(Success(blob), request, a.used)
  }

  /** flash_get_blob. */
  method FlashGetBlob(port: MidiPort, page: int) returns (r: Result<seq<byte>>)
    modifies port
    ensures r == GetBlob(page, old(port.inbound)).result
    ensures port.sent == old(port.sent) + GetBlob(page, old(port.inbound)).sent
    ensures port.inbound == old(port.inbound)[GetBlob(page, old(port.inbound)).used..]
  {
    if !(0 <= page / 0x80 <= 0xff) {
      return Failure(ByteOutOfRange);
    }
    var data: seq<byte> := [0xf0, 0x00, 0x20, 0x32, 0x7f, 0x7f, 0x74, page / 0x80, page % 0x80, 0xf7];
    port.Write(data);
    var sysex := AwaitReply(port, 0x34, 0x74);
    if sysex.Failure? {
      return sysex;
    }
    r := Success(sysex.value[6 := 0x74]);
  }

  /** Exchange `a` followed by exchange `b`, which reads on where `a`
      stopped; the data is concatenated unless `b` fails. */
  function Then(a: Exchange, b: Exchange): Exchange
    requires a.result.Success?
  {
    Exchange(if b.result.Success? then Success(a.result.value + b.result.value) else b.result,
             a.sent + b.sent, a.used + b.used)
  }

  /** The blobs of `n` consecutive pages from `page` on, stopping at the
      first failure. */
  function Pages(page: int, n: nat, input: seq<byte>): (r: Exchange)
    ensures r.used <= |input|
    decreases n
  {
    if n == 0 then Exchange(Success([]), [], 0)
    else
      var b := GetBlob(page, input);
      if b.result.Failure? then b
      else Then(b, Pages(page + 1, n - 1, input[b.used..]))
  }

  /** flash_get: both the start and the count must be multiples of 0x100;
      then the pages covering `addr .. addr + count` are fetched in
      ascending order. */
  function Fetched(addr: int, count: int, input: seq<byte>): (r: Exchange)
    ensures r.used <= |input|
  {
    if addr % 0x100 != 0 then Exchange(Failure(StartNotAligned), [], 0)
    else if count % 0x100 != 0 then Exchange(Failure(CountNotAligned), [], 0)
    else Pages(addr / 0x100, if count > 0 then count / 0x100 else 0, input)
  }

  /** The first of `k` pages fetched. */
  lemma PagesUnfold(page: int, k: nat, input: seq<byte>, b: Exchange, page1: int, k1: nat)
    requires k == k1 + 1 && page1 == page + 1 && b == GetBlob(page, input) && b.result.Success?
    ensures Pages(page, k, input) == Then(b, Pages(page1, k1, input[b.used..]))
  {
    var rest := Pages(page1, k1, input[b.used..]);
    assert Pages(page, k, input) == Then(b, rest);
  }

  /** Exchanges chain associatively. */
  lemma ThenAssoc(a: Exchange, b: Exchange, c: Exchange)
    requires a.result.Success? && b.result.Success?
    ensures Then(a, Then(b, c)) == Then(Then(a, b), c)
  {
    if c.result.Success? {
      assert a.result.value + (b.result.value + c.result.value)
          == (a.result.value + b.result.value) + c.result.value;
    }
    assert a.sent + (b.sent + c.sent) == (a.sent + b.sent) + c.sent;
  }

  /** One more page fetched by the loop of flash_get. */
  lemma PagesStep(input: seq<byte>, acc: Exchange, b: Exchange, page: int, k: nat, page1: int, k1: nat, used: nat)
    requires acc.result.Success? && acc.used <= |input| && k == k1 + 1 && page1 == page + 1
    requires b == GetBlob(page, input[acc.used..]) && b.result.Success? && used == acc.used + b.used
    ensures used <= |input| && input[acc.used..][b.used..] == input[used..]
    ensures Then(acc, Pages(page, k, input[acc.used..])) == Then(Then(acc, b), Pages(page1, k1, input[used..]))
  {
    assert input[acc.used..][b.used..] == input[used..];
    PagesUnfold(page, k, input[acc.used..], b, page1, k1);
    ThenAssoc(acc, b, Pages(page1, k1, input[used..]));
  }

  /** The pages flash_get covers: aligned `addr` and `count` are whole
      multiples of the page size. */
  lemma PageSpan(addr: int, count: int, page0: int, n: nat)
    requires addr % 0x100 == 0 && count % 0x100 == 0
    requires page0 == addr / 0x100 && n == if count > 0 then count / 0x100 else 0
    ensures addr == 0x100 * page0 && (count > 0 ==> count == 0x100 * n) && (count <= 0 ==> n == 0)
  {
  }

  /** Nothing exchanged yet. */
  lemma ThenNothing(x: Exchange)
    ensures Then(Exchange(Success([]), [], 0), x) == x
  {
    if x.result.Success? {
      assert [] + x.result.value == x.result.value;
    }
    assert [] + x.sent == x.sent;
  }

  /** One pass of the loop of flash_get: `acc` is what the pages before
      `page` exchanged, `sent` what was sent before the loop. */
  method FetchPage(port: MidiPort, curaddr: int, ghost input: seq<byte>, ghost sent: seq<byte>,
                   ghost acc: Exchange, ghost page: int, ghost left: nat, ghost page1: int, ghost left1: nat)
    returns (blob: Result<seq<byte>>, ghost acc': Exchange)
    modifies port
    requires acc.result.Success? && acc.used <= |input| && curaddr == 0x100 * page
    requires port.inbound == input[acc.used..] && port.sent == sent + acc.sent
    requires page1 == page + 1 && left == left1 + 1
    ensures acc'.used <= |input| && port.inbound == input[acc'.used..] && port.sent == sent + acc'.sent
    ensures blob.Failure? ==> acc'.result == blob && Then(acc, Pages(page, left, input[acc.used..])) == acc'
    ensures blob.Success? ==> acc'.result == Success(acc.result.value + blob.value)
                              && Then(acc, Pages(page, left, input[acc.used..]))
                              == Then(acc', Pages(page1, left1, input[acc'.used..]))
  {
    assert curaddr / 0x100 == page;
    blob := FlashGetBlob(port, curaddr / 0x100);
    ghost var b := GetBlob(page, input[acc.used..]);
    ghost var used := acc.used + b.used;
    assert input[acc.used..][b.used..] == input[used..];
    acc' := Then(acc, b);
    if blob.Success? {
      PagesStep(input, acc, b, page, left, page1, left1, used);
    }
  }

  /** The page loop of flash_get, once the bounds are known to be page aligned. */
  method FetchPages(port: MidiPort, addr: int, count: int, ghost page0: int, ghost n: nat)
    returns (r: Result<seq<byte>>)
    modifies port
    requires addr == 0x100 * page0 && (if count > 0 then count == 0x100 * n else n == 0)
    ensures r == Pages(page0, n, old(port.inbound)).result
    ensures port.sent == old(port.sent) + Pages(page0, n, old(port.inbound)).sent
    ensures port.inbound == old(port.inbound)[Pages(page0, n, old(port.inbound)).used..]
  {
    ghost var input, sent := port.inbound, port.sent;
    ghost var m: nat, left: nat := 0, n;
    ghost var page := page0;
    ghost var acc := Exchange(Success([]), [], 0);
    assert input[0..] == input;
    ThenNothing(Pages(page, left, input[acc.used..]));
    var data := [];
    var curaddr := addr;
    while curaddr < addr + count
      invariant curaddr == 0x100 * page && page == page0 + m && m + left == n
      invariant acc.result == Success(data) && acc.used <= |input|
      invariant port.sent == sent + acc.sent && port.inbound == input[acc.used..]
      invariant Pages(page0, n, input) == Then(acc, Pages(page, left, input[acc.used..]))
      decreases left
    {
      ghost var page1, left1 := page + 1, left - 1;
      ghost var acc';
      var blob;
      blob, acc' := FetchPage(port, curaddr, input, sent, acc, page, left, page1, left1);
      if blob.Failure? {
        return blob;
      }
      data := data + blob.value;
      acc := acc';
      m, left, page := m + 1, left1, page1;
      curaddr := curaddr + 0x100;
    }
    assert acc.result.value + [] == acc.result.value && acc.sent + [] == acc.sent;
    r := Success(data);
  }

  /** flash_get. */
  method FlashGet(port: MidiPort, addr: int, count: int) returns (r: Result<seq<byte>>)
    modifies port
    ensures r == Fetched(addr, count, old(port.inbound)).result
    ensures port.sent == old(port.sent) + Fetched(addr, count, old(port.inbound)).sent
    ensures port.inbound == old(port.inbound)[Fetched(addr, count, old(port.inbound)).used..]
  {
    if addr % 0x100 != 0 {
      return Failure(StartNotAligned);
    }
    if count % 0x100 != 0 {
      return Failure(CountNotAligned);
    }
    ghost var n: nat := if count > 0 then count / 0x100 else 0;
    ghost var page0 := addr / 0x100;
    PageSpan(addr, count, page0, n);
    r := FetchPages(port, addr, count, page0, n);
  }
}
