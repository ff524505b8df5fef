/** The Python 2 string operations the disassembly scripts build their text
    with: splitting on a separator or on whitespace, joining, `int(s, 10)`,
    and the `%x` / `'0<n>x'` hex formats. Strings are byte strings, modelled
    as `seq<char>`. */
module TextFormat {
  import opened Common

  /** The characters `str.split()` and `int()` treat as whitespace. */
  predicate IsSpace(c: char)
  {
    c == ' ' || c == '\t' || c == '\n' || c == '\r' || c == '\U{0b}' || c == '\U{0c}'
  }

  predicate NoSpace(s: string)
  {
    forall i | 0 <= i < |s| :: !IsSpace(s[i])
  }

  predicate IsDigit(c: char)
  {
    '0' <= c <= '9'
  }

  predicate IsHexDigit(c: char)
  {
    '0' <= c <= '9' || 'a' <= c <= 'f'
  }

  predicate AllDigits(s: string)
  {
    forall i | 0 <= i < |s| :: IsDigit(s[i])
  }

  predicate AllHexDigits(s: string)
  {
    forall i | 0 <= i < |s| :: IsHexDigit(s[i])
  }

  /** Where the first `c` in `s` is, or `|s|` when there is none. */
  function IndexOf(s: string, c: char): (k: nat)
    ensures k <= |s| && (k < |s| ==> s[k] == c)
    ensures forall i | 0 <= i < k :: s[i] != c
  {
    if s == [] then 0
    else if s[0] == c then 0
    else 1 + IndexOf(s[1..], c)
  }

  /** `s.split(c)` for a one-character separator: the pieces between the
      separators, empty ones included. */
  function Split(s: string, c: char): (r: seq<string>)
    ensures |r| >= 1
    ensures forall i | 0 <= i < |r| :: c !in r[i]
    decreases |s|
  {
    var k := IndexOf(s, c);
    if k == |s| then [s] else [s[..k]] + Split(s[k + 1..], c)
  }

  /** `sep.join(parts)` for a one-character separator. */
  function Join(parts: seq<string>, sep: char): string
  {
    if parts == [] then ""
    else if |parts| == 1 then parts[0]
    else parts[0] + [sep] + Join(parts[1..], sep)
  }

  /** Joining the pieces of a split gives back the string. */
  lemma {:induction false} SplitJoin(s: string, c: char)
    ensures Join(Split(s, c), c) == s
    decreases |s|
  {
    var k := IndexOf(s, c);
    if k < |s| {
      var rest := s[k + 1..];
      SplitJoin(rest, c);
      JoinCons(s[..k], Split(rest, c), c);
      AroundIndex(s, k);
    }
  }

  /** A part in front of at least one other is joined with a separator. */
  lemma JoinCons(p: string, rest: seq<string>, sep: char)
    requires |rest| >= 1
    ensures Join([p] + rest, sep) == p + [sep] + Join(rest, sep)
  {
    assert ([p] + rest)[1..] == rest;
  }

  /** The separator found first in `a + [c] + b` is the one after `a`. */
  lemma IndexAfter(a: string, c: char, b: string)
    requires c !in a
    ensures IndexOf(a + [c] + b, c) == |a|
  {
    var s := a + [c] + b;
    var k := IndexOf(s, c);
    assert s[|a|] == c;
  }

  /** Splitting a join gives back the parts, when none holds the separator. */
  lemma {:induction false} JoinSplit(parts: seq<string>, c: char)
    requires |parts| >= 1
    requires forall i | 0 <= i < |parts| :: c !in parts[i]
    ensures Split(Join(parts, c), c) == parts
    decreases |parts|
  {
    var p := parts[0];
    if |parts| == 1 {
      assert IndexOf(p, c) == |p|;
    } else {
      var rest := Join(parts[1..], c);
      IndexAfter(p, c, rest);
      var s := p + [c] + rest;
      assert s[..|p|] == p && s[|p| + 1..] == rest;
      JoinSplit(parts[1..], c);
      assert parts == [p] + parts[1..];
    }
  }

  /** A character in neither the parts nor the separator is not in their
      join. */
  lemma {:induction false} JoinLacks(parts: seq<string>, sep: char, c: char)
    requires c != sep && forall i | 0 <= i < |parts| :: c !in parts[i]
    ensures c !in Join(parts, sep)
    decreases |parts|
  {
    if |parts| > 1 {
      JoinLacks(parts[1..], sep, c);
    }
  }

  /** The number of characters before the first whitespace. */
  function WordLength(s: string): (n: nat)
    ensures n <= |s| && (n < |s| ==> IsSpace(s[n]))
    ensures forall i | 0 <= i < n :: !IsSpace(s[i])
  {
    if s == [] || IsSpace(s[0]) then 0 else 1 + WordLength(s[1..])
  }

  /** `s.split()`: the maximal runs of non-whitespace characters, in order. */
  function SplitWhitespace(s: string): (r: seq<string>)
    ensures forall i | 0 <= i < |r| :: r[i] != [] && NoSpace(r[i])
    decreases |s|
  {
    if s == [] then []
    else if IsSpace(s[0]) then SplitWhitespace(s[1..])
    else
      var n := WordLength(s);
      [s[..n]] + SplitWhitespace(s[n..])
  }

  /** Splitting at whitespace undoes a join with single spaces, when every
      part is a non-empty word. */
  lemma {:induction false} JoinSplitWhitespace(parts: seq<string>)
    requires forall i | 0 <= i < |parts| :: parts[i] != [] && NoSpace(parts[i])
    ensures SplitWhitespace(Join(parts, ' ')) == parts
    decreases |parts|
  {
    if |parts| == 1 {
      var p := parts[0];
      assert WordLength(p) == |p|;
      assert p[..|p|] == p && p[|p|..] == [];
    } else if |parts| > 1 {
      var p, rest := parts[0], Join(parts[1..], ' ');
      var s := p + [' '] + rest;
      assert WordLength(s) == |p| by {
        assert IsSpace(s[|p|]);
        assert forall i | 0 <= i < |p| :: s[i] == p[i];
      }
      assert s[..|p|] == p && s[|p|..] == [' '] + rest;
      assert ([' '] + rest)[1..] == rest;
      JoinSplitWhitespace(parts[1..]);
      assert parts == [p] + parts[1..];
    }
  }

  /** `s` without its leading whitespace. */
  function DropSpace(s: string): (r: string)
    ensures |r| <= |s|
    ensures r == [] || !IsSpace(r[0])
  {
    if s != [] && IsSpace(s[0]) then DropSpace(s[1..]) else s
  }

  /** `s.rstrip()`: `s` without its trailing whitespace. */
  function Rstrip(s: string): (r: string)
    ensures |r| <= |s| && r == s[..|r|]
    ensures r == [] || !IsSpace(r[|r| - 1])
    ensures forall i | |r| <= i < |s| :: IsSpace(s[i])
  {
    if s != [] && IsSpace(s[|s| - 1]) then Rstrip(s[..|s| - 1]) else s
  }

  /** `s.strip()`. */
  function Strip(s: string): string
  {
    DropSpace(Rstrip(s))
  }

  /** The number of leading decimal digits. */
  function DigitRun(s: string): (n: nat)
    ensures n <= |s| && (n < |s| ==> !IsDigit(s[n]))
    ensures AllDigits(s[..n])
  {
    if s != [] && IsDigit(s[0]) then 1 + DigitRun(s[1..]) else 0
  }

  /** The value of a string of decimal digits. */
  function DecimalValue(d: string): nat
    requires AllDigits(d)
  {
    if d == [] then 0 else 10 * DecimalValue(d[..|d| - 1]) + (d[|d| - 1] as int - '0' as int)
  }

  /** Digits followed by nothing but whitespace, as `int()` reads them
      after the sign. */
  function Unsigned(b: string): (r: Result<nat>)
    ensures r.Failure? ==> r.error == BadNumber
  {
    var n := DigitRun(b);
    if n == 0 || DropSpace(b[n..]) != [] then Failure(BadNumber)
    else Success(DecimalValue(b[..n]))
  }

  /** Python 2's `int(s, 10)`: surrounding whitespace, an optional sign,
      whitespace after the sign, then at least one decimal digit; anything
      else raises ValueError. */
  function ParseInt(s: string): (r: Result<int>)
    ensures r.Failure? ==> r.error == BadNumber
  {
    var a := DropSpace(s);
    if a == [] then Failure(BadNumber)
    else if a[0] == '-' then
      (var u := Unsigned(DropSpace(a[1..])); if u.Failure? then Failure(u.error) else var v: int := u.value; Success(-v))
    else if a[0] == '+' then
      (var u := Unsigned(DropSpace(a[1..])); if u.Failure? then Failure(u.error) else Success(u.value))
    else
      (var u := Unsigned(a); if u.Failure? then Failure(u.error) else Success(u.value))
  }

  function DigitChar(d: nat): (c: char)
    requires d < 10
    ensures IsDigit(c)
  {
    (d + '0' as int) as char
  }

  /** `'%d' % k` for a count. */
  function DecimalText(k: nat): (r: string)
    ensures r != [] && AllDigits(r)
  {
    if k < 10 then [DigitChar(k)] else DecimalText(k / 10) + [DigitChar(k % 10)]
  }

  lemma {:induction false} DecimalTextValue(k: nat)
    ensures DecimalValue(DecimalText(k)) == k
    decreases k
  {
    var t := DecimalText(k);
    if k >= 10 {
      assert t[..|t| - 1] == DecimalText(k / 10);
      DecimalTextValue(k / 10);
    }
  }

  /** `int('%d' % k, 10) == k`. */
  lemma ParseDecimal(k: nat)
    ensures ParseInt(DecimalText(k)) == Success(k)
  {
    var t := DecimalText(k);
    assert DropSpace(t) == t && t[0] != '-' && t[0] != '+';
    assert DigitRun(t) == |t|;
    assert t[..|t|] == t && t[|t|..] == [];
    DecimalTextValue(k);
    assert Unsigned(t) == Success(k);
  }

  function HexDigitChar(d: nat): (c: char)
    requires d < 16
    ensures IsHexDigit(c)
  {
    if d < 10 then (d + '0' as int) as char else (d - 10 + 'a' as int) as char
  }

  function HexDigitValue(c: char): nat
  {
    if '0' <= c <= '9' then c as int - '0' as int
    else if 'a' <= c <= 'f' then c as int - 'a' as int + 10
    else 0
  }

  /** The value of a string of lower-case hex digits. */
  function HexNumber(s: string): nat
  {
    if s == [] then 0 else 16 * HexNumber(s[..|s| - 1]) + HexDigitValue(s[|s| - 1])
  }

  /** `'%x' % v`: lower-case hex without leading zeros. */
  function LowerHex(v: nat): (r: string)
    ensures r != [] && AllHexDigits(r)
  {
    if v < 16 then [HexDigitChar(v)] else LowerHex(v / 16) + [HexDigitChar(v % 16)]
  }

  /** `format(v, '0<width>x')`: lower-case hex padded with zeros to at least
      `width` digits. */
  function PaddedHex(v: nat, width: nat): (r: string)
    ensures r != [] && AllHexDigits(r)
  {
    var h := LowerHex(v);
    if |h| < width then Repeat('0', width - |h|) + h else h
  }

  lemma {:induction false} LowerHexValue(v: nat)
    ensures HexNumber(LowerHex(v)) == v
    decreases v
  {
    var h := LowerHex(v);
    if v >= 16 {
      assert h[..|h| - 1] == LowerHex(v / 16);
      LowerHexValue(v / 16);
    }
  }

  /** Leading zeros do not change a hex number. */
  lemma {:induction false} ZerosValue(n: nat, h: string)
    ensures HexNumber(Repeat('0', n) + h) == HexNumber(h)
    decreases |h|, n
  {
    var s := Repeat('0', n) + h;
    if h == [] {
      assert s == Repeat('0', n);
      if n > 0 {
        assert s[..|s| - 1] == Repeat('0', n - 1);
        ZerosValue(n - 1, []);
        assert Repeat('0', n - 1) + [] == Repeat('0', n - 1);
      }
    } else {
      assert s[..|s| - 1] == Repeat('0', n) + h[..|h| - 1];
      ZerosValue(n, h[..|h| - 1]);
    }
  }

  /** The padded hex text reads back as the value. */
  lemma PaddedHexValue(v: nat, width: nat)
    ensures HexNumber(PaddedHex(v, width)) == v
  {
    var h := LowerHex(v);
    LowerHexValue(v);
    if |h| < width {
      var z := width - |h|;
      ZerosValue(z, h);
      assert PaddedHex(v, width) == Repeat('0', z) + h;
    } else {
      assert PaddedHex(v, width) == h;
    }
  }

  /** `'%x' % n` for any integer: a minus sign before the digits of a
      negative number. */
  function SignedHex(n: int): string
  {
    if n < 0 then "-" + LowerHex(-n) else LowerHex(n)
  }

  /** A value below `16^n` needs at most `n` hex digits (`n >= 1`). */
  lemma {:induction false} LowerHexLength(v: nat, n: nat)
    requires n >= 1 && v < Pow2(4 * n)
    ensures |LowerHex(v)| <= n
    decreases n
  {
    if v >= 16 {
      assert n > 1;
      assert Pow2(4 * n) == 16 * Pow2(4 * (n - 1)) by {
        Pow2Split(4, 4 * (n - 1));
        assert Pow2(4) == 16;
      }
      LowerHexLength(v / 16, n - 1);
    }
  }

  lemma {:induction false} Pow2Split(a: nat, b: nat)
    ensures Pow2(a + b) == Pow2(a) * Pow2(b)
    decreases a
  {
    if a > 0 {
      Pow2Split(a - 1, b);
    }
  }

  /** A value below `16^width` is printed with exactly `width` digits. */
  lemma PaddedHexLength(v: nat, width: nat)
    requires width >= 1 && v < Pow2(4 * width)
    ensures |PaddedHex(v, width)| == width
  {
    LowerHexLength(v, width);
  }
  /** Lines as written to a text file, each followed by a newline. */
  function Terminated(lines: seq<string>): string
  {
    if lines == [] then "" else lines[0] + "\n" + Terminated(lines[1..])
  }

  lemma {:induction false} TerminatedAppend(a: seq<string>, b: seq<string>)
    ensures Terminated(a + b) == Terminated(a) + Terminated(b)
    decreases |a|
  {
    if a != [] {
      assert (a + b)[1..] == a[1..] + b;
      TerminatedAppend(a[1..], b);
    } else {
      assert a + b == b;
    }
  }

  /** Newline-terminated lines are the pieces between newlines, the last
      piece being empty. */
  lemma {:induction false} TerminatedJoin(lines: seq<string>)
    ensures Terminated(lines) == Join(lines + [""], '\n')
    decreases |lines|
  {
    if lines != [] {
      TerminatedJoin(lines[1..]);
      assert (lines + [""])[1..] == lines[1..] + [""];
    }
  }

  /** Splitting a file of lines at its newlines gives back the lines, when
      none of them holds a newline. */
  lemma TerminatedSplit(lines: seq<string>)
    requires forall i | 0 <= i < |lines| :: '\n' !in lines[i]
    ensures Split(Terminated(lines), '\n') == lines + [""]
  {
    TerminatedJoin(lines);
    JoinSplit(lines + [""], '\n');
  }
}

/** The file and list objects the scripts write to and pop from. */
module TextFiles {
  /** An output text file: everything written to it so far. */
  class TextFile {
    var text: string

    constructor ()
      ensures text == []
    {
      text := [];
    }

    /** `f.write(s)`. */
    method Write(s: string)
      modifies this
      ensures text == old(text) + s
    {
      text := text + s;
    }
  }

  /** A Python list of lines, appended at the end and popped at the front. */
  class LineList {
    var items: seq<string>

    constructor ()
      ensures items == []
    {
      items := [];
    }

    /** `l.append(s)`. */
    method Append(s: string)
      modifies this
      ensures items == old(items) + [s]
    {
      items := items + [s];
    }

    /** `l.pop(0)`. */
    method PopFront() returns (s: string)
      requires items != []
      modifies this
      ensures s == old(items)[0] && items == old(items)[1..]
    {
      s := items[0];
      items := items[1..];
    }
  }
}
