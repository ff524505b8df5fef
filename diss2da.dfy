/** diss2da: turn an annotated disassembly into an annotation file, one
    `addr: command` line per annotation. The regular expressions that
    classify each input line are not modelled: their verdict is the input,
    as a `DissLine`. */
module DissToDa {
  import opened Common
  import opened TextFormat
  import opened TextFiles

  /** One annotation line without its newline: `"%x: %s" % (addr, cmd)`. */
  function Entry(addr: nat, cmd: string): string
  {
    LowerHex(addr) + ": " + cmd
  }

  /** The annotation lines for several commands at one address, in order. */
  function Entries(addr: nat, cmds: seq<string>): (r: seq<string>)
    ensures |r| == |cmds|
  {
    seq(|cmds|, i requires 0 <= i < |cmds| => Entry(addr, cmds[i]))
  }

  /** An annotation line reads back as its address, in hex before the first
      colon, and its command after the colon and space. */
  lemma EntryReadsBack(addr: nat, cmd: string)
    ensures var e := Entry(addr, cmd);
            var k := IndexOf(e, ':');
            k == |LowerHex(addr)| && HexNumber(e[..k]) == addr && e[k..] == ": " + cmd
  {
    var h := LowerHex(addr);
    var e := Entry(addr, cmd);
    assert ':' !in h by {
      forall i | 0 <= i < |h|
        ensures h[i] != ':'
      {
        assert IsHexDigit(h[i]);
      }
    }
    assert e == h + [':'] + (" " + cmd);
    IndexAfter(h, ':', " " + cmd);
    assert e[..|h|] == h;
    LowerHexValue(addr);
  }

  /** line(addr, cmd, outf) for a single command. */
  method Line(addr: nat, cmd: string, outf: TextFile)
    modifies outf
    ensures outf.text == old(outf.text) + Terminated([Entry(addr, cmd)])
  {
    outf.Write(LowerHex(addr) + ": " + cmd + "\n");
    assert Terminated([Entry(addr, cmd)]) == Entry(addr, cmd) + "\n" + Terminated([]);
  }

  /** Writing one more line after the first `k`. */
  lemma EntriesNext(addr: nat, all: seq<string>, k: nat)
    requires k < |all|
    ensures Terminated(Entries(addr, all[..k + 1]))
            == Terminated(Entries(addr, all[..k])) + Terminated([Entry(addr, all[k])])
  {
    assert Entries(addr, all[..k + 1]) == Entries(addr, all[..k]) + [Entry(addr, all[k])];
    TerminatedAppend(Entries(addr, all[..k]), [Entry(addr, all[k])]);
  }

  /** line(addr, cmd, outf) for a list: pops the commands from the front
      and writes each, so the list ends up empty. */
  method LineEach(addr: nat, cmd: LineList, outf: TextFile)
    modifies cmd, outf
    ensures outf.text == old(outf.text) + Terminated(Entries(addr, old(cmd.items)))
    ensures cmd.items == []
  {
    ghost var all := cmd.items;
    ghost var k := 0;
    while |cmd.items| > 0
      invariant k <= |all| && cmd.items == all[k..]
      invariant outf.text == old(outf.text) + Terminated(Entries(addr, all[..k]))
      decreases |cmd.items|
    {
      var c := cmd.PopFront();
      Line(addr, c, outf);
      EntriesNext(addr, all, k);
      k := k + 1;
    }
    assert all[..k] == all;
  }

  /** The parts findlen counts: split at commas, or at whitespace when that
      gives a single part. */
  function DataParts(s: string): seq<string>
  {
    var parts := Split(s, ',');
    if |parts| == 1 then SplitWhitespace(s) else parts
  }

  /** What one part adds: the decimal repeat count after its first `*`, or
      1 when it has none. */
  function PartCount(p: string): Result<int>
  {
    var t := Split(p, '*');
    if |t| > 1 then ParseInt(t[1]) else Success(1)
  }

  /** The sum of the parts' counts, or the error of a repeat count that is
      not a number. */
  function CountParts(parts: seq<string>): Result<int>
  {
    if parts == [] then Success(0)
    else
      var init := CountParts(parts[..|parts| - 1]);
      var c := PartCount(parts[|parts| - 1]);
      if init.Failure? then init
      else if c.Failure? then Failure(c.error)
      else Success(init.value + c.value)
  }

  /** The number of elements a `.byte` / `.short` / `.word` argument
      stands for. */
  function ElementCount(s: string): Result<int>
  {
    CountParts(DataParts(s))
  }

  /** A failure among the first `j` parts is the failure of all of them. */
  lemma {:induction false} PrefixFailure(parts: seq<string>, j: nat)
    requires j <= |parts| && CountParts(parts[..j]).Failure?
    ensures CountParts(parts) == CountParts(parts[..j])
    decreases |parts| - j
  {
    if j < |parts| {
      assert parts[..j + 1][..j] == parts[..j];
      PrefixFailure(parts, j + 1);
    } else {
      assert parts[..j] == parts;
    }
  }

  /** The body of findlen's loop: the count one part adds. */
  method CountPart(p: string) returns (c: Result<int>)
    ensures c == PartCount(p)
  {
    var tparts := Split(p, '*');
    if |tparts| > 1 {
      c := ParseInt(tparts[1]);
    } else {
      c := Success(1);
    }
  }

  lemma CountNext(parts: seq<string>, i: nat)
    requires i < |parts|
    ensures var init, c := CountParts(parts[..i]), PartCount(parts[i]);
            CountParts(parts[..i + 1])
            == if init.Failure? then init else if c.Failure? then Failure(c.error) else Success(init.value + c.value)
  {
    assert parts[..i + 1][..i] == parts[..i];
  }

  /** findlen: split the argument, then add up the counts of its parts. A
      count that is not a decimal number raises, as Python's int() does. */
  method FindLen(s: string) returns (r: Result<int>)
    ensures r == ElementCount(s)
  {
    var parts := Split(s, ',');
    if |parts| == 1 {
      parts := SplitWhitespace(s);
    }
    r := SumCounts(parts);
  }

  /** The loop of findlen: the counts of the parts added up in order; the
      first count that is not a number ends it. */
  method SumCounts(parts: seq<string>) returns (r: Result<int>)
    ensures r == CountParts(parts)
  {
    var count := 0;
    var i := 0;
    while i < |parts|
      invariant 0 <= i <= |parts|
      invariant CountParts(parts[..i]) == Success(count)
    {
      var c := CountPart(parts[i]);
      CountNext(parts, i);
      if c.Failure? {
        PrefixFailure(parts, i + 1);
        return Failure(c.error);
      }
      count := count + c.value;
      i := i + 1;
    }
    assert parts[..i] == parts;
    return Success(count);
  }

  /** The whitespace split is used exactly when there is no comma. */
  lemma CommasFirst(s: string)
    ensures DataParts(s) == if ',' in s then Split(s, ',') else SplitWhitespace(s)
  {
    var k := IndexOf(s, ',');
    if ',' in s {
      var i :| 0 <= i < |s| && s[i] == ',';
      assert k <= i;
      assert |Split(s[k + 1..], ',')| >= 1;
    }
  }

  /** Parts without a `*` count one element each. */
  lemma {:induction false} PlainParts(parts: seq<string>)
    requires forall i | 0 <= i < |parts| :: '*' !in parts[i]
    ensures CountParts(parts) == Success(|parts|)
    decreases |parts|
  {
    if parts != [] {
      var last := parts[|parts| - 1];
      PlainParts(parts[..|parts| - 1]);
      JoinSplit([last], '*');
    }
  }

  /** A part `v*n` counts `n`. */
  lemma RepeatedPart(v: string, n: nat)
    requires '*' !in v
    ensures PartCount(v + "*" + DecimalText(n)) == Success(n)
  {
    var d := DecimalText(n);
    assert '*' !in d by {
      forall i | 0 <= i < |d|
        ensures d[i] != '*'
      {
        assert IsDigit(d[i]);
      }
    }
    assert Join([v, d], '*') == v + "*" + d;
    JoinSplit([v, d], '*');
    ParseDecimal(n);
  }

  /** Parts without a `*` after parts worth `n` add one each. */
  lemma {:induction false} MorePlainParts(parts: seq<string>, extra: seq<string>, n: int)
    requires CountParts(parts) == Success(n)
    requires forall i | 0 <= i < |extra| :: '*' !in extra[i]
    ensures CountParts(parts + extra) == Success(n + |extra|)
    decreases |extra|
  {
    if extra == [] {
      assert parts + extra == parts;
    } else {
      var init, last := extra[..|extra| - 1], extra[|extra| - 1];
      MorePlainParts(parts, init, n);
      var all := parts + extra;
      assert all[..|all| - 1] == parts + init && all[|all| - 1] == last;
      JoinSplit([last], '*');
    }
  }

  /** The parts of findlen's documented example, joined by spaces, split
      back at whitespace since there is no comma. */
  lemma ExampleParts(parts: seq<string>)
    requires parts == ["01", "92", "85", "00*5", "29", "04"]
    ensures DataParts(Join(parts, ' ')) == parts
  {
    assert forall i | 0 <= i < |parts| :: ',' !in parts[i] && parts[i] != [] && NoSpace(parts[i]);
    JoinSplitWhitespace(parts);
    JoinLacks(parts, ' ', ',');
    JoinSplit([Join(parts, ' ')], ',');
  }

  /** Three plain parts, `00*5` and two more plain parts count ten. */
  lemma ExampleCount(parts: seq<string>)
    requires parts == ["01", "92", "85", "00*5", "29", "04"]
    ensures CountParts(parts) == Success(10)
  {
    var first := parts[..3];
    PlainParts(first);
    assert DecimalText(5) == "5";
    RepeatedPart("00", 5);
    assert parts[3] == "00" + "*" + DecimalText(5);
    var four := parts[..4];
    assert four[..3] == first;
    assert CountParts(four) == Success(8);
    MorePlainParts(four, parts[4..], 8);
    assert four + parts[4..] == parts;
  }

  /** The example of findlen's documentation, "01 92 85 00*5 29 04": its six
      parts joined by spaces stand for ten elements. */
  lemma FindLenExample()
    ensures ElementCount(Join(["01", "92", "85", "00*5", "29", "04"], ' ')) == Success(10)
  {
    ExampleParts(["01", "92", "85", "00*5", "29", "04"]);
    ExampleCount(["01", "92", "85", "00*5", "29", "04"]);
  }

  /** The data directives of the disassembly. */
  datatype DataKind = Byte | Short | Word

  function KindName(k: DataKind): string
  {
    match k
    case Byte => ".byte"
    case Short => ".short"
    case Word => ".word"
  }

  /** What parse_diss's regular expressions make of one input line. */
  datatype DissLine =
    | Ellipsis                                        // objdump's `...`: skipped
    | DotLine(text: string)                           // a dot-command, kept for the next address
    | Remark(text: string)                            // a standalone `;` comment
    | Blank                                           // an empty line
    | Code(addr: nat, comment: Option<string>)        // an instruction
    // An `.ascii` line. Its `comment` is what diss2da.py:111 passes on as the
    // comment: the `(\s*,?)` group after the string, not the `;` comment. So a
    // `;` comment on such a line is dropped, and blanks after the string
    // become a bare `.cl ` line.
    | Ascii(addr: nat, data: string, comment: Option<string>)
    | Data(addr: nat, kind: DataKind, data: string, comment: Option<string>)
    | Unrecognised                                    // reported on stderr and skipped

  /** `re.match(r'\s*\.rebase', l)`. */
  predicate IsRebase(t: string)
  {
    var d := DropSpace(t);
    |d| >= 7 && d[..7] == ".rebase"
  }

  /** What parse_diss has done so far: the lines written after the header,
      the dot-commands waiting for the next address, the last address and
      the error that stopped it, if any. */
  datatype DissState = DissState(written: seq<string>, pending: seq<string>, prevaddr: int, failed: Option<Error>)

  const DissStart := DissState([], [], -1, None)

  /** The two lines every annotation file starts with. */
  const DissHeader: string := ": .___ disassembly annotation\n: .daversion 0.1\n"

  /** The waiting dot-commands, written when `addr` is past the previous
      address. */
  function Flushed(addr: nat, prevaddr: int, pending: seq<string>): seq<string>
  {
    if addr > prevaddr then Entries(addr, pending) else []
  }

  /** The line comment, as `.cl` with trailing whitespace removed; an empty
      comment writes nothing. */
  function CommentLines(addr: nat, comment: Option<string>): seq<string>
  {
    if comment.Some? && comment.value != [] then [Entry(addr, ".cl " + Rstrip(comment.value))] else []
  }

  /** The data directive with its element count, if the line has one. */
  function DirectiveLines(addr: nat, directive: Option<string>): seq<string>
  {
    if directive.Some? then [Entry(addr, directive.value)] else []
  }

  /** A recognised line at `addr`: the waiting dot-commands when the
      address is past the previous one, then the line's comment, then its
      data directive. */
  function AtAddress(st: DissState, addr: nat, comment: Option<string>, directive: Option<string>): DissState
  {
    DissState(st.written + Flushed(addr, st.prevaddr, st.pending)
                + CommentLines(addr, comment) + DirectiveLines(addr, directive),
              if addr > st.prevaddr then [] else st.pending, addr, None)
  }

  /** One pass of parse_diss's line loop. */
  function DissStep(st: DissState, l: DissLine): DissState
    requires st.failed.None?
  {
    match l
    case Ellipsis => st
    case DotLine(t) =>
      st.(pending := st.pending + [Rstrip(t)], prevaddr := if IsRebase(t) then -1 else st.prevaddr)
    case Remark(t) => st.(pending := st.pending + [".cs " + Rstrip(t)])
    case Blank => st.(pending := st.pending + [".cs"])
    case Code(addr, comment) => AtAddress(st, addr, comment, None)
    case Ascii(addr, data, comment) =>
      AtAddress(st, addr, comment, Some(".ascii [" + SignedHex(|Strip(data)| - 2) + "]"))
    case Data(addr, kind, data, comment) =>
      var n := ElementCount(data);
      if n.Failure? then st.(failed := Some(n.error))
      else AtAddress(st, addr, comment, Some(KindName(kind) + " [" + SignedHex(n.value) + "]"))
    case Unrecognised => st
  }

  /** parse_diss over the first lines; it stops at the first error. */
  function DissRun(lines: seq<DissLine>): DissState
  {
    if lines == [] then DissStart
    else
      var st := DissRun(lines[..|lines| - 1]);
      if st.failed.Some? then st else DissStep(st, lines[|lines| - 1])
  }

  /** `if addr > prevaddr: line(addr, nextlines, outf)`. */
  method FlushPending(addr: nat, prevaddr: int, nextlines: LineList, outf: TextFile)
    modifies nextlines, outf
    ensures outf.text == old(outf.text) + Terminated(Flushed(addr, prevaddr, old(nextlines.items)))
    ensures nextlines.items == if addr > prevaddr then [] else old(nextlines.items)
  {
    if addr > prevaddr {
      LineEach(addr, nextlines, outf);
    }
  }

  /** `if comment: line(addr, ".cl " + comment.rstrip(), outf)`. */
  method WriteComment(addr: nat, comment: Option<string>, outf: TextFile)
    modifies outf
    ensures outf.text == old(outf.text) + Terminated(CommentLines(addr, comment))
  {
    if comment.Some? && comment.value != [] {
      Line(addr, ".cl " + Rstrip(comment.value), outf);
    }
  }

  /** `if parsed != True: line(addr, parsed, outf)`. */
  method WriteDirective(addr: nat, directive: Option<string>, outf: TextFile)
    modifies outf
    ensures outf.text == old(outf.text) + Terminated(DirectiveLines(addr, directive))
  {
    if directive.Some? {
      Line(addr, directive.value, outf);
    }
  }

  /** Lines written one group after another make the file of all of them. */
  lemma WrittenInTurn(prefix: string, w: seq<string>, f: seq<string>, c: seq<string>, d: seq<string>)
    ensures prefix + Terminated(w + f + c + d)
            == prefix + Terminated(w) + Terminated(f) + Terminated(c) + Terminated(d)
  {
    TerminatedAppend(w, f);
    TerminatedAppend(w + f, c);
    TerminatedAppend(w + f + c, d);
    var tw, tf, tc, td := Terminated(w), Terminated(f), Terminated(c), Terminated(d);
    AppendAssoc(prefix, tw + tf + tc, td);
    AppendAssoc(prefix, tw + tf, tc);
    AppendAssoc(prefix, tw, tf);
  }

  /** Lines 123-127 of parse_diss: write what a recognised line brings. */
  method EmitAt(addr: nat, comment: Option<string>, directive: Option<string>,
                prevaddr: int, nextlines: LineList, outf: TextFile,
                ghost prefix: string, ghost st: DissState)
    returns (prevaddr': int)
    requires nextlines.items == st.pending && prevaddr == st.prevaddr
    requires outf.text == prefix + Terminated(st.written)
    modifies nextlines, outf
    ensures var st' := AtAddress(st, addr, comment, directive);
            outf.text == prefix + Terminated(st'.written)
            && nextlines.items == st'.pending && prevaddr' == st'.prevaddr
  {
    var f, c, d := Flushed(addr, prevaddr, st.pending), CommentLines(addr, comment), DirectiveLines(addr, directive);
    FlushPending(addr, prevaddr, nextlines, outf);
    WriteComment(addr, comment, outf);
    WriteDirective(addr, directive, outf);
    WrittenInTurn(prefix, st.written, f, c, d);
    prevaddr' := addr;
  }

  /** The file, the list and `prevaddr` hold what the state says, after
      `prefix`. */
  ghost predicate Follows(st: DissState, prevaddr: int, nextlines: LineList, outf: TextFile, prefix: string)
    reads nextlines, outf
  {
    st.failed.None? && nextlines.items == st.pending && prevaddr == st.prevaddr
    && outf.text == prefix + Terminated(st.written)
  }

  /** One pass of the line loop, writing to the file and the list. */
  method DissLineStep(l: DissLine, prevaddr: int, nextlines: LineList, outf: TextFile,
                      ghost prefix: string, ghost st: DissState)
    returns (prevaddr': int, error: Option<Error>)
    requires Follows(st, prevaddr, nextlines, outf, prefix)
    modifies nextlines, outf
    ensures var st' := DissStep(st, l);
            error == st'.failed && outf.text == prefix + Terminated(st'.written)
            && (error.None? ==> Follows(st', prevaddr', nextlines, outf, prefix))
  {
    prevaddr', error := prevaddr, None;
    match l
    case Ellipsis =>
    case DotLine(t) =>
      if IsRebase(t) {
        prevaddr' := -1;
      }
      nextlines.Append(Rstrip(t));
    case Remark(t) =>
      nextlines.Append(".cs " + Rstrip(t));
    case Blank =>
      nextlines.Append(".cs");
    case Code(addr, comment) =>
      prevaddr' := EmitAt(addr, comment, None, prevaddr, nextlines, outf, prefix, st);
    case Ascii(addr, data, comment) =>
      var directive := ".ascii [" + SignedHex(|Strip(data)| - 2) + "]";
      prevaddr' := EmitAt(addr, comment, Some(directive), prevaddr, nextlines, outf, prefix, st);
    case Data(addr, kind, data, comment) =>
      var n := FindLen(data);
      if n.Failure? {
        return prevaddr, Some(n.error);
      }
      var directive := KindName(kind) + " [" + SignedHex(n.value) + "]";
      prevaddr' := EmitAt(addr, comment, Some(directive), prevaddr, nextlines, outf, prefix, st);
    case Unrecognised =>
  }

  /** parse_diss: the header, then each line in turn; an element count that
      is not a number stops it with what was written so far. */
  method ParseDiss(lines: seq<DissLine>, outf: TextFile) returns (error: Option<Error>)
    modifies outf
    ensures outf.text == old(outf.text) + DissHeader + Terminated(DissRun(lines).written)
    ensures error == DissRun(lines).failed
  {
    outf.Write(": .___ disassembly annotation\n");
    outf.Write(": .daversion 0.1\n");
    ghost var prefix := old(outf.text) + DissHeader;
    var prevaddr := -1;
    var nextlines := new LineList();
    ghost var st := DissStart;
    assert lines[..0] == [];
    var i := 0;
    while i < |lines|
      invariant 0 <= i <= |lines| && st == DissRun(lines[..i])
      invariant Follows(st, prevaddr, nextlines, outf, prefix)
    {
      RunNext(lines, i);
      prevaddr, error := DissLineStep(lines[i], prevaddr, nextlines, outf, prefix, st);
      st := DissStep(st, lines[i]);
      if error.Some? {
        RunStopped(lines, i + 1);
        return;
      }
      i := i + 1;
    }
    assert lines[..i] == lines;
    error := None;
  }

  lemma RunNext(lines: seq<DissLine>, i: nat)
    requires i < |lines| && DissRun(lines[..i]).failed.None?
    ensures DissRun(lines[..i + 1]) == DissStep(DissRun(lines[..i]), lines[i])
  {
    assert lines[..i + 1][..i] == lines[..i];
  }

  /** Once stopped, parse_diss stays stopped. */
  lemma {:induction false} RunStopped(lines: seq<DissLine>, j: nat)
    requires j <= |lines| && DissRun(lines[..j]).failed.Some?
    ensures DissRun(lines) == DissRun(lines[..j])
    decreases |lines| - j
  {
    if j < |lines| {
      assert lines[..j + 1][..j] == lines[..j];
      RunStopped(lines, j + 1);
    } else {
      assert lines[..j] == lines;
    }
  }
}
