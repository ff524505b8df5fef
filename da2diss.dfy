/** da2diss: rebuild an annotated disassembly from a binary and its
    annotation file. Modelled here: the run-length hex dump of data
    directives, the flushing of buffered output lines, and the check of the
    annotation file's header. */
module DaToDiss {
  import opened Common
  import opened TextFormat
  import opened TextFiles
  import DissToDa

  /** A binary file opened for reading: its bytes and the read position. */
  class BinaryFile {
    const data: seq<byte>
    var pos: nat

    constructor (data: seq<byte>)
      ensures this.data == data && pos == 0
    {
      this.data := data;
      pos := 0;
    }

    /** `f.seek(offset)`: any position may be sought, even past the end. */
    method Seek(offset: nat)
      modifies this
      ensures pos == offset
    {
      pos := offset;
    }

    /** `f.read(1)`: the next byte, or nothing at the end of the file. */
    method Read1() returns (d: Option<byte>)
      modifies this
      ensures old(pos) < |data| ==> d == Some(data[old(pos)]) && pos == old(pos) + 1
      ensures old(pos) >= |data| ==> d.None? && pos == old(pos)
    {
      if pos < |data| {
        d := Some(data[pos]);
        pos := pos + 1;
      } else {
        d := None;
      }
    }
  }

  /** The little-endian value of bytes: the sum of `d_j << (8 * j)`. */
  function LittleEndian(b: seq<byte>): nat
  {
    if b == [] then 0 else LittleEndian(b[..|b| - 1]) + b[|b| - 1] * Pow2(8 * (|b| - 1))
  }

  /** `width` bytes hold a value below `2^(8 * width)`. */
  lemma {:induction false} LittleEndianBound(b: seq<byte>)
    ensures LittleEndian(b) < Pow2(8 * |b|)
    decreases |b|
  {
    if b != [] {
      var n := |b| - 1;
      LittleEndianBound(b[..n]);
      Pow2Split(8 * n, 8);
      assert Pow2(8) == 256 by {
        Pow2Value32();
      }
      var p := Pow2(8 * n);
      ScaleLe(b[n], 255, p);
    }
  }

  lemma ScaleLe(a: nat, c: nat, p: nat)
    requires a <= c
    ensures a * p <= c * p
  {
    var d := c - a;
    assert c * p == a * p + d * p;
  }

  /** The values hexdump reads from `bytes`, the file from the offset on:
      `count` values of `width` bytes each. */
  function Values(bytes: seq<byte>, count: nat, width: nat): (r: seq<nat>)
    requires count * width <= |bytes|
    ensures |r| == count
  {
    if count == 0 then []
    else
      assert (count - 1) * width + width == count * width;
      Values(bytes, count - 1, width) + [LittleEndian(bytes[(count - 1) * width .. count * width])]
  }

  /** A stretch of equal values: the value and how many times it repeats. */
  datatype Run = Run(value: nat, length: nat)

  /** One step of hexdump's run building: a value equal to the last run's
      lengthens that run, any other value starts a run of its own. */
  function Push(r: seq<Run>, v: nat): seq<Run>
  {
    if r != [] && r[|r| - 1].value == v then r[..|r| - 1] + [Run(v, r[|r| - 1].length + 1)]
    else r + [Run(v, 1)]
  }

  /** The run-length form of values, as hexdump builds it from the front. */
  function Runs(vs: seq<nat>): (r: seq<Run>)
    ensures |vs| > 0 <==> |r| > 0
    ensures |vs| > 0 ==> r[|r| - 1].value == vs[|vs| - 1]
    ensures forall k | 0 <= k < |r| :: r[k].length >= 1
    ensures forall k | 0 < k < |r| :: r[k - 1].value != r[k].value
  {
    if vs == [] then [] else Push(Runs(vs[..|vs| - 1]), vs[|vs| - 1])
  }

  /** `k` copies of a value. */
  function Copies(v: nat, k: nat): seq<nat>
  {
    if k == 0 then [] else Copies(v, k - 1) + [v]
  }

  /** The values a run-length form stands for. */
  function Expand(r: seq<Run>): seq<nat>
  {
    if r == [] then [] else Expand(r[..|r| - 1]) + Copies(r[|r| - 1].value, r[|r| - 1].length)
  }

  lemma ExpandSnoc(rs: seq<Run>, run: Run)
    ensures Expand(rs + [run]) == Expand(rs) + Copies(run.value, run.length)
  {
    assert (rs + [run])[..|rs|] == rs;
  }

  /** Lengthening the last run by one adds its value once more. */
  lemma ExpandLonger(init: seq<Run>, v: nat, k: nat)
    ensures Expand(init + [Run(v, k + 1)]) == Expand(init + [Run(v, k)]) + [v]
  {
    ExpandSnoc(init, Run(v, k));
    ExpandSnoc(init, Run(v, k + 1));
    AppendAssoc(Expand(init), Copies(v, k), [v]);
  }

  /** A new run of one value adds that value. */
  lemma ExpandMore(r: seq<Run>, v: nat)
    ensures Expand(r + [Run(v, 1)]) == Expand(r) + [v]
  {
    ExpandSnoc(r, Run(v, 1));
    assert Copies(v, 1) == [v];
  }

  lemma RunsSnoc(init: seq<nat>, v: nat)
    ensures Runs(init + [v]) == Push(Runs(init), v)
  {
    assert (init + [v])[..|init|] == init;
  }

  /** One step of run building adds the value to what the runs stand for. */
  lemma ExpandPush(r: seq<Run>, v: nat)
    ensures Expand(Push(r, v)) == Expand(r) + [v]
  {
    if r != [] && r[|r| - 1].value == v {
      var n := |r| - 1;
      assert r == r[..n] + [Run(v, r[n].length)];
      ExpandLonger(r[..n], v, r[n].length);
    } else {
      ExpandMore(r, v);
    }
  }

  /** The run-length form loses nothing: expanding it gives the values. */
  lemma {:induction false} RunsExpand(vs: seq<nat>)
    ensures Expand(Runs(vs)) == vs
    decreases |vs|
  {
    if vs != [] {
      var init, v := vs[..|vs| - 1], vs[|vs| - 1];
      assert vs == init + [v];
      RunsExpand(init);
      ExpandPush(Runs(init), v);
    }
  }

  /** The text of one run: the value in lower-case hex, zero-padded to two
      digits a byte, then `*` and the decimal count when it repeats. */
  function Token(run: Run, width: nat): string
  {
    PaddedHex(run.value, 2 * width) + (if run.length >= 2 then "*" + DecimalText(run.length) else "")
  }

  function Tokens(runs: seq<Run>, width: nat): (r: seq<string>)
    ensures |r| == |runs|
  {
    seq(|runs|, k requires 0 <= k < |runs| => Token(runs[k], width))
  }

  /** The bytes hexdump reads: the file from the offset on, or nothing when
      the offset lies past the end. */
  function FileFrom(file: seq<byte>, offset: nat): seq<byte>
  {
    if offset <= |file| then file[offset..] else []
  }

  /** hexdump: the run-length tokens of the values joined by spaces; reading
      past the end of the file raises. */
  function HexdumpText(file: seq<byte>, offset: nat, count: nat, width: nat): Result<string>
  {
    var bytes := FileFrom(file, offset);
    if count * width > |bytes| then Failure(EndOfFile)
    else Success(Join(Tokens(Runs(Values(bytes, count, width)), width), ' '))
  }

  /** The inner loop of hexdump: one value from `width` bytes, low byte
      first. */
  method ReadValue(f: BinaryFile, width: nat) returns (v: Result<nat>)
    modifies f
    ensures width == 0 ==> v == Success(0) && f.pos == old(f.pos)
    ensures width > 0 && old(f.pos) + width <= |f.data| ==>
              v == Success(LittleEndian(f.data[old(f.pos)..old(f.pos) + width])) && f.pos == old(f.pos) + width
    ensures width > 0 && old(f.pos) + width > |f.data| ==> v == Failure(EndOfFile)
  {
    var val := 0;
    var j := 0;
    while j < width
      invariant j <= width && f.pos == old(f.pos) + j
      invariant j > 0 ==> f.pos <= |f.data| && val == LittleEndian(f.data[old(f.pos)..f.pos])
      invariant j == 0 ==> val == 0
    {
      var d := f.Read1();
      if d.None? {
        return Failure(EndOfFile);
      }
      ghost var start := old(f.pos);
      assert f.data[start..f.pos][..j] == f.data[start..f.pos - 1];
      assert f.data[start..f.pos][j] == d.value;
      val := val + d.value * Pow2(8 * j);
      j := j + 1;
    }
    return Success(val);
  }

  /** Tokens of the run-length form after one more value: the last token is
      rewritten with the new count, or a token for the new run is added. */
  lemma TokensPush(r: seq<Run>, v: nat, width: nat)
    ensures var t := Tokens(r, width);
            Tokens(Push(r, v), width) ==
              if r != [] && r[|r| - 1].value == v then t[..|t| - 1] + [Token(Run(v, r[|r| - 1].length + 1), width)]
              else t + [Token(Run(v, 1), width)]
  {
  }

  /** The body of hexdump's outer loop after a value is read: `b`, `last`
      and `dupcount` are updated so that `b` holds the tokens of the values
      read so far and `last`, `dupcount` describe their last run. */
  method AddValue(b: seq<string>, last: Option<nat>, dupcount: nat, val: nat, width: nat, ghost vs: seq<nat>)
    returns (b': seq<string>, last': Option<nat>, dupcount': nat)
    requires b == Tokens(Runs(vs), width)
    requires last.None? <==> vs == []
    requires last.Some? ==> Runs(vs)[|Runs(vs)| - 1] == Run(last.value, dupcount)
    ensures b' == Tokens(Runs(vs + [val]), width)
    ensures last' == Some(val) && Runs(vs + [val])[|Runs(vs + [val])| - 1] == Run(val, dupcount')
  {
    RunsSnoc(vs, val);
    TokensPush(Runs(vs), val, width);
    ghost var r := Runs(vs);
    if last == Some(val) {
      assert r[|r| - 1].length >= 1;
      dupcount' := dupcount + 1;
      last' := last;
      b' := b[..|b| - 1] + [PaddedHex(last.value, 2 * width) + ("*" + DecimalText(dupcount'))];
      assert r != [] && r[|r| - 1].value == val;
      assert b' == Tokens(Push(r, val), width);
    } else {
      last' := Some(val);
      dupcount' := 1;
      b' := b + [PaddedHex(val, 2 * width)];
      ghost var h := PaddedHex(val, 2 * width);
      assert h + "" == h;
      assert Token(Run(val, 1), width) == h;
      assert !(r != [] && r[|r| - 1].value == val);
      assert b' == Tokens(Push(r, val), width);
    }
  }

  /** One value more: the next `width` bytes. */
  lemma ValuesNext(bytes: seq<byte>, i: nat, width: nat, start: nat)
    requires start == i * width && start + width <= |bytes|
    ensures (i + 1) * width <= |bytes|
    ensures Values(bytes, i + 1, width) == Values(bytes, i, width) + [LittleEndian(bytes[start..start + width])]
  {
    assert (i + 1) * width == start + width;
  }

  /** The bytes from the offset on, sliced, are the file's. */
  lemma FileFromSlice(file: seq<byte>, offset: nat, start: nat, width: nat)
    requires offset + start + width <= |file|
    ensures FileFrom(file, offset)[start..start + width] == file[offset + start..offset + start + width]
  {
  }

  /** Reading stops short: `count` values do not fit after the offset. */
  lemma ShortFile(file: seq<byte>, offset: nat, i: nat, count: nat, width: nat)
    requires i < count && width > 0 && i * width <= |FileFrom(file, offset)|
    requires offset + i * width + width > |file|
    ensures count * width > |FileFrom(file, offset)|
  {
    assert (i + 1) * width == i * width + width;
    ScaleLe(i + 1, count, width);
  }

  /** The value read at the `i`-th place extends the values read so far. */
  lemma ReadFits(data: seq<byte>, offset: nat, i: nat, width: nat, start: nat, val: nat)
    requires start == i * width && start <= |FileFrom(data, offset)|
    requires width == 0 ==> val == 0
    requires width > 0 ==> offset + start + width <= |data| && val == LittleEndian(data[offset + start..offset + start + width])
    ensures (i + 1) * width == start + width && (i + 1) * width <= |FileFrom(data, offset)|
    ensures Values(FileFrom(data, offset), i + 1, width) == Values(FileFrom(data, offset), i, width) + [val]
  {
    if width > 0 {
      FileFromSlice(data, offset, start, width);
    }
    ValuesNext(FileFrom(data, offset), i, width, start);
  }

  /** hexdump's inner loop at the `i`-th value: the value read is the
      `i`-th of the bytes from the offset on, or reading fails because
      `count` values do not fit there. */
  method ReadNext(f: BinaryFile, offset: nat, i: nat, count: nat, width: nat) returns (v: Result<nat>)
    requires i < count && f.pos == offset + i * width && i * width <= |FileFrom(f.data, offset)|
    modifies f
    ensures v.Failure? ==> v.error == EndOfFile && count * width > |FileFrom(f.data, offset)|
    ensures v.Success? ==> f.pos == offset + (i + 1) * width && (i + 1) * width <= |FileFrom(f.data, offset)|
                           && Values(FileFrom(f.data, offset), i + 1, width)
                              == Values(FileFrom(f.data, offset), i, width) + [v.value]
  {
    ghost var start := i * width;
    v := ReadValue(f, width);
    if v.Failure? {
      ShortFile(f.data, offset, i, count, width);
      return;
    }
    ReadFits(f.data, offset, i, width, start, v.value);
  }

  /** What hexdump's loop keeps: `b` holds the tokens of the values read so
      far and `last`, `dupcount` describe their last run. */
  ghost predicate Dumped(vs: seq<nat>, width: nat, b: seq<string>, last: Option<nat>, dupcount: nat)
  {
    b == Tokens(Runs(vs), width)
    && (last.None? <==> vs == [])
    && (last.Some? ==> Runs(vs)[|Runs(vs)| - 1] == Run(last.value, dupcount))
  }

  /** hexdump: read `count` values of `width` bytes from the offset on and
      return their run-length tokens joined by spaces. */
  method Hexdump(file: seq<byte>, offset: nat, count: nat, width: nat) returns (r: Result<string>)
    ensures r == HexdumpText(file, offset, count, width)
  {
    var b: seq<string> := [];
    var last: Option<nat> := None;
    var f := new BinaryFile(file);
    f.Seek(offset);
    var dupcount := 0;
    ghost var vs: seq<nat> := [];
    var i := 0;
    while i < count
      invariant i <= count && f.data == file && f.pos == offset + i * width
      invariant i * width <= |FileFrom(file, offset)| && vs == Values(FileFrom(file, offset), i, width)
      invariant Dumped(vs, width, b, last, dupcount)
    {
      var v := ReadNext(f, offset, i, count, width);
      if v.Failure? {
        return Failure(EndOfFile);
      }
      b, last, dupcount := AddValue(b, last, dupcount, v.value, width, vs);
      vs := vs + [v.value];
      i := i + 1;
    }
    return Success(Join(b, ' '));
  }

  /** The total length of runs. */
  function SumLengths(runs: seq<Run>): nat
  {
    if runs == [] then 0 else SumLengths(runs[..|runs| - 1]) + runs[|runs| - 1].length
  }

  lemma {:induction false} CopiesLength(v: nat, k: nat)
    ensures |Copies(v, k)| == k
  {
    if k > 0 {
      CopiesLength(v, k - 1);
    }
  }

  /** Runs stand for as many values as their lengths add up to. */
  lemma {:induction false} ExpandLength(runs: seq<Run>)
    ensures |Expand(runs)| == SumLengths(runs)
    decreases |runs|
  {
    if runs != [] {
      var n := |runs| - 1;
      ExpandLength(runs[..n]);
      CopiesLength(runs[n].value, runs[n].length);
    }
  }

  /** Hex digits hold no separator findlen splits at. */
  lemma HexDigitsPlain(h: string)
    requires AllHexDigits(h)
    ensures NoSpace(h) && ',' !in h && '*' !in h
  {
    forall i | 0 <= i < |h|
      ensures !IsSpace(h[i]) && h[i] != ',' && h[i] != '*'
    {
      assert IsHexDigit(h[i]);
    }
  }

  /** Decimal digits hold no separator findlen splits at. */
  lemma DigitsPlain(d: string)
    requires AllDigits(d)
    ensures NoSpace(d) && ',' !in d
  {
    forall i | 0 <= i < |d|
      ensures !IsSpace(d[i]) && d[i] != ','
    {
      assert IsDigit(d[i]);
    }
  }

  /** A token is one whitespace-separated word without a comma, and findlen
      counts it as its run's length. */
  lemma TokenCounts(run: Run, width: nat)
    requires run.length >= 1
    ensures var t := Token(run, width);
            t != [] && NoSpace(t) && ',' !in t && DissToDa.PartCount(t) == Success(run.length)
  {
    var h := PaddedHex(run.value, 2 * width);
    HexDigitsPlain(h);
    if run.length >= 2 {
      var d := DecimalText(run.length);
      DigitsPlain(d);
      assert Token(run, width) == h + "*" + d;
      DissToDa.RepeatedPart(h, run.length);
    } else {
      assert Token(run, width) == h;
      assert Join([h], '*') == h;
      JoinSplit([h], '*');
    }
  }

  /** Parts that count as the runs' lengths, one by one, count as their
      total. */
  lemma {:induction false} CountRuns(parts: seq<string>, runs: seq<Run>)
    requires |parts| == |runs|
    requires forall k | 0 <= k < |parts| :: DissToDa.PartCount(parts[k]) == Success(runs[k].length)
    ensures DissToDa.CountParts(parts) == Success(SumLengths(runs))
    decreases |parts|
  {
    if parts != [] {
      var n := |parts| - 1;
      CountRuns(parts[..n], runs[..n]);
      DissToDa.CountNext(parts, n);
      assert parts[..n + 1] == parts;
    }
  }

  /** findlen counts the tokens of runs as the runs' total length. */
  lemma CountTokens(runs: seq<Run>, width: nat)
    requires forall k | 0 <= k < |runs| :: runs[k].length >= 1
    ensures DissToDa.CountParts(Tokens(runs, width)) == Success(SumLengths(runs))
  {
    var t := Tokens(runs, width);
    forall k | 0 <= k < |t|
      ensures DissToDa.PartCount(t[k]) == Success(runs[k].length)
    {
      TokenCounts(runs[k], width);
    }
    CountRuns(t, runs);
  }

  /** What hexdump writes, diss2da's findlen reads back as the number of
      values dumped: the two tools agree on the element count of a data
      directive. */
  lemma FindLenOfHexdump(file: seq<byte>, offset: nat, count: nat, width: nat)
    requires HexdumpText(file, offset, count, width).Success?
    ensures DissToDa.ElementCount(HexdumpText(file, offset, count, width).value) == Success(count)
  {
    var vs := Values(FileFrom(file, offset), count, width);
    var runs := Runs(vs);
    var toks := Tokens(runs, width);
    forall i | 0 <= i < |toks|
      ensures toks[i] != [] && NoSpace(toks[i]) && ',' !in toks[i]
    {
      TokenCounts(runs[i], width);
    }
    var s := Join(toks, ' ');
    JoinLacks(toks, ' ', ',');
    DissToDa.CommasFirst(s);
    JoinSplitWhitespace(toks);
    CountTokens(runs, width);
    ExpandLength(runs);
    RunsExpand(vs);
  }

  /** The digits of a token read back as its run's value, in exactly two
      digits a byte when the value came from `width` bytes. */
  lemma TokenReadsBack(run: Run, width: nat)
    requires width >= 1 && run.value < Pow2(8 * width)
    ensures var h := Split(Token(run, width), '*')[0];
            |h| == 2 * width && HexNumber(h) == run.value
  {
    var h := PaddedHex(run.value, 2 * width);
    HexDigitsPlain(h);
    PaddedHexValue(run.value, 2 * width);
    PaddedHexLength(run.value, 2 * width);
    if run.length >= 2 {
      var d := DecimalText(run.length);
      assert Token(run, width) == h + "*" + d;
      IndexAfter(h, '*', d);
    } else {
      assert Token(run, width) == h;
      assert Join([h], '*') == h;
      JoinSplit([h], '*');
    }
  }

  /** outbuf_flush: write the buffered lines in order, each ending in a
      newline, and leave the buffer empty. */
  method OutbufFlush(outbuf: LineList, outf: TextFile)
    modifies outbuf, outf
    ensures outf.text == old(outf.text) + Terminated(old(outbuf.items))
    ensures outbuf.items == []
  {
    ghost var lines := outbuf.items;
    ghost var k := 0;
    while |outbuf.items| > 0
      invariant k <= |lines| && outbuf.items == lines[k..]
      invariant outf.text == old(outf.text) + Terminated(lines[..k])
      decreases |outbuf.items|
    {
      var l := outbuf.PopFront();
      outf.Write(l + "\n");
      TerminatedAppend(lines[..k], [l]);
      assert lines[..k + 1] == lines[..k] + [l];
      k := k + 1;
    }
    assert lines[..k] == lines;
  }

  /** `f.readline()`: up to and including the first newline, or the rest of
      the text when there is none. */
  function ReadLine(s: string): (l: string)
    ensures |l| <= |s| && l == s[..|l|]
    ensures l == s || (l != [] && l[|l| - 1] == '\n' && '\n' !in l[..|l| - 1])
  {
    var k := IndexOf(s, '\n');
    if k == |s| then s else s[..k + 1]
  }

  /** The regular expression `.` followed by `word`, at position `i` of
      `l`: any character but a newline, then the word. */
  predicate DotWordAt(l: string, i: nat, word: string)
  {
    i + |word| < |l| && l[i] != '\n' && forall j | 0 <= j < |word| :: l[i + 1 + j] == word[j]
  }

  /** `\s+.word` at position `i` of `l`, with the backtracking of the
      regular expression: one or more whitespace characters, where the `.`
      may itself take a whitespace character. */
  predicate SpacesDotWordAt(l: string, i: nat, word: string)
    decreases |l| - i
  {
    i < |l| && IsSpace(l[i]) && (DotWordAt(l, i + 1, word) || SpacesDotWordAt(l, i + 1, word))
  }

  /** `re.match(':\s+.' + word, l)`. */
  predicate HeaderLineOk(l: string, word: string)
  {
    |l| >= 1 && l[0] == ':' && SpacesDotWordAt(l, 1, word)
  }

  /** The header check of parse_da: the first line must match `:\s+.__`
      and the second `:\s+.daversion`; the second is read only when the
      first matched. */
  function HeaderAccepted(text: string): (ok: bool)
    ensures ok ==> text != [] && text[0] == ':'
  {
    var l1 := ReadLine(text);
    HeaderLineOk(l1, "__") && HeaderLineOk(ReadLine(text[|l1|..]), "daversion")
  }

  /** The first line of a text that starts with a line and a newline. */
  lemma ReadFirstLine(l: string, rest: string)
    requires '\n' !in l
    ensures ReadLine(l + "\n" + rest) == l + "\n"
  {
    IndexAfter(l, '\n', rest);
  }

  /** Two matching lines, each ending in a newline, pass the header check
      whatever follows them. */
  lemma HeaderLines(l1: string, l2: string, t: string)
    requires '\n' !in l1 && '\n' !in l2
    requires HeaderLineOk(l1 + "\n", "__") && HeaderLineOk(l2 + "\n", "daversion")
    ensures HeaderAccepted(l1 + "\n" + l2 + "\n" + t)
  {
    var rest := l2 + "\n" + t;
    var text := l1 + "\n" + rest;
    assert text == l1 + "\n" + l2 + "\n" + t;
    ReadFirstLine(l1, rest);
    assert text[|l1 + "\n"|..] == rest;
    ReadFirstLine(l2, t);
  }

  /** The first header line diss2da writes matches `:\s+.__`. */
  lemma FirstHeaderLine()
    ensures var l := ": .___ disassembly annotation"; '\n' !in l && HeaderLineOk(l + "\n", "__")
  {
    var l := ": .___ disassembly annotation\n";
    assert l[3] == '_' && l[4] == '_';
    assert DotWordAt(l, 2, "__");
  }

  /** The second header line diss2da writes matches `:\s+.daversion`. */
  lemma SecondHeaderLine()
    ensures var l := ": .daversion 0.1"; '\n' !in l && HeaderLineOk(l + "\n", "daversion")
  {
    var l := ": .daversion 0.1\n";
    assert DotWordAt(l, 2, "daversion");
  }

  /** The header diss2da writes is one da2diss accepts, whatever follows it. */
  lemma HeaderRecognised(t: string)
    ensures HeaderAccepted(DissToDa.DissHeader + t)
  {
    var l1, l2 := ": .___ disassembly annotation", ": .daversion 0.1";
    assert DissToDa.DissHeader == l1 + "\n" + l2 + "\n";
    FirstHeaderLine();
    SecondHeaderLine();
    HeaderLines(l1, l2, t);
  }
}
