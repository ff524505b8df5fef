/** The convenience functions of the firmware library: C string length,
    scrolling a string across the four-digit display, and showing 16- and
    32-bit values as hexadecimal digits. Memory is a byte array; the
    display is a `Panel` recording what it was given. */
module FirmwareLib {
  import opened Common

  /** The front panel as the bootloader drives it: every text handed to
      `disp_put` and every LED index switched on with `set_led`, in
      order. */
  class Panel {
    var shown: seq<seq<byte>>
    var lit: seq<nat>

    constructor ()
      ensures shown == [] && lit == []
    {
      shown, lit := [], [];
    }

    /** `disp_put(p)`: the display is handed the C string at `p`. */
    method DispPut(mem: array<byte>, p: nat)
      modifies this
      requires Terminated(mem[..], p)
      ensures shown == old(shown) + [CString(mem[..], p)] && lit == old(lit)
    {
      shown := shown + [CString(mem[..], p)];
    }

    /** `set_led(led, 1)`. */
    method SetLed(led: nat)
      modifies this
      ensures lit == old(lit) + [led] && shown == old(shown)
    {
      lit := lit + [led];
    }
  }

  // ---------------------------------------------------------------------
  // C strings

  /** A NUL byte at or after `p`: the memory holds a C string at `p`. */
  predicate Terminated(mem: seq<byte>, p: nat)
  {
    exists k :: p <= k < |mem| && mem[k] == 0
  }

  /** The position of the first NUL at or after `p`. */
  function NulFrom(mem: seq<byte>, p: nat): (k: nat)
    requires Terminated(mem, p)
    ensures p <= k < |mem| && mem[k] == 0
    ensures forall j | p <= j < k :: mem[j] != 0
    decreases |mem| - p
  {
    if mem[p] == 0 then p
    else
      assert Terminated(mem, p + 1) by {
        var k :| p <= k < |mem| && mem[k] == 0;
        assert p + 1 <= k;
      }
      NulFrom(mem, p + 1)
  }

  /** The characters of the C string at `p`, without its NUL. */
  function CString(mem: seq<byte>, p: nat): (r: seq<byte>)
    requires Terminated(mem, p)
    ensures forall i | 0 <= i < |r| :: r[i] != 0
  {
    mem[p..NulFrom(mem, p)]
  }

  /** The string at `p + i` is the string at `p` less its first `i`
      characters. */
  lemma CStringTail(mem: seq<byte>, p: nat, i: nat)
    requires Terminated(mem, p) && i <= |CString(mem, p)|
    ensures Terminated(mem, p + i) && CString(mem, p + i) == CString(mem, p)[i..]
  {
    var k := NulFrom(mem, p);
    assert mem[k] == 0;
    var k' := NulFrom(mem, p + i);
    assert k' == k;
  }

  /** A buffer whose first NUL is at `k` holds the C string `mem[..k]`. */
  lemma CStringOfBuffer(mem: seq<byte>, k: nat)
    requires k < |mem| && mem[k] == 0 && forall j | 0 <= j < k :: mem[j] != 0
    ensures Terminated(mem, 0) && CString(mem, 0) == mem[..k]
  {
    assert mem[k] == 0;
    assert NulFrom(mem, 0) == k;
  }

  /** lib.c's strlen: steps the pointer past the byte it tests, so it
      returns the number of characters plus one. */
  method StrLen(mem: array<byte>, src: nat) returns (n: int)
    requires Terminated(mem[..], src)
    ensures n == |CString(mem[..], src)| + 1
  {
    ghost var k := NulFrom(mem[..], src);
    var p := src;
    var more := true;
    while more
      invariant src <= p && (more ==> p <= k) && (!more ==> p == k + 1)
      decreases k + 1 - p
    {
      more := mem[p] != 0;
      p := p + 1;
    }
    n := p - src;
  }

  /** The standard strlen: the number of characters before the NUL. */
  method StandardStrLen(mem: array<byte>, src: nat) returns (n: int)
    requires Terminated(mem[..], src)
    ensures n == |CString(mem[..], src)|
    ensures 0 <= n && mem[src + n] == 0 && forall j | src <= j < src + n :: mem[j] != 0
  {
    ghost var k := NulFrom(mem[..], src);
    var p := src;
    while mem[p] != 0
      invariant src <= p <= k
      decreases k - p
    {
      p := p + 1;
    }
    n := p - src;
  }

  // ---------------------------------------------------------------------
  // Scrolling

  /** The windows a scroll shows for a string `c` whose length is taken to
      be `len`: the tails of `c` from 0 to `len - 4`. */
  function Windows(c: seq<byte>, len: int): (r: seq<seq<byte>>)
    requires len < 4 || len <= |c| + 1
    ensures |r| == if len >= 4 then len - 3 else 0
    ensures forall i | 0 <= i < |r| :: r[i] == c[i..]
  {
    var n := if len >= 4 then len - 3 else 0;
    seq(n, i requires 0 <= i < n => c[i..])
  }

  /** `w` in reverse order. */
  function Reversed<T>(w: seq<T>): (r: seq<T>)
    ensures |r| == |w| && forall k | 0 <= k < |w| :: r[k] == w[|w| - 1 - k]
  {
    seq(|w|, k requires 0 <= k < |w| => w[|w| - 1 - k])
  }

  lemma WindowsNext(c: seq<byte>, i: nat)
    requires i + 4 <= |c| + 1
    ensures Windows(c, i + 4) == Windows(c, i + 3) + [c[i..]]
  {
  }

  lemma ReversedNext(w: seq<seq<byte>>, m: nat)
    requires m < |w|
    ensures Reversed(w)[..m + 1] == Reversed(w)[..m] + [w[|w| - 1 - m]]
  {
  }

  /** Scrolling right, the window at `i` comes after those right of it. */
  lemma ScrollRightNext(c: seq<byte>, len: int, i: nat)
    requires i + 4 <= len <= |c| + 1
    ensures Reversed(Windows(c, len))[..len - 3 - i] == Reversed(Windows(c, len))[..len - 4 - i] + [c[i..]]
  {
    ReversedNext(Windows(c, len), len - 4 - i);
  }

  /** disp_scroll: the string shown from each start 0 to `len - 4` in
      increasing order, `len` being what lib.c's strlen returns. */
  method DispScroll(panel: Panel, mem: array<byte>, msg: nat)
    requires Terminated(mem[..], msg)
    modifies panel
    ensures panel.shown == old(panel.shown) + Windows(CString(mem[..], msg), |CString(mem[..], msg)| + 1)
    ensures panel.lit == old(panel.lit)
  {
    ghost var c := CString(mem[..], msg);
    var len := StrLen(mem, msg);
    var i := 0;
    while i <= len - 4
      invariant 0 <= i && (len >= 4 ==> i <= len - 3) && (len < 4 ==> i == 0)
      invariant panel.shown == old(panel.shown) + Windows(c, i + 3) && panel.lit == old(panel.lit)
    {
      CStringTail(mem[..], msg, i);
      panel.DispPut(mem, msg + i);
      WindowsNext(c, i);
      i := i + 1;
    }
    assert Windows(c, i + 3) == Windows(c, len);
  }

  /** disp_scroll_right: the same windows in decreasing order. */
  method DispScrollRight(panel: Panel, mem: array<byte>, msg: nat)
    requires Terminated(mem[..], msg)
    modifies panel
    ensures panel.shown
            == old(panel.shown) + Reversed(Windows(CString(mem[..], msg), |CString(mem[..], msg)| + 1))
    ensures panel.lit == old(panel.lit)
  {
    ghost var c := CString(mem[..], msg);
    var len := StrLen(mem, msg);
    ghost var w := Windows(c, len);
    var i := len - 4;
    while i >= 0
      invariant -1 <= i <= len - 4 || (len < 4 && i == len - 4)
      invariant len >= 4 ==> panel.shown == old(panel.shown) + Reversed(w)[..len - 4 - i]
      invariant len < 4 ==> panel.shown == old(panel.shown)
      invariant panel.lit == old(panel.lit)
    {
      CStringTail(mem[..], msg, i);
      panel.DispPut(mem, msg + i);
      ScrollRightNext(c, len, i);
      AppendAssoc(old(panel.shown), Reversed(w)[..len - 4 - i], [c[i..]]);
      i := i - 1;
    }
    if len >= 4 {
      assert Reversed(w)[..len - 4 - i] == Reversed(w);
    } else {
      assert Reversed(w) == [];
      assert panel.shown == old(panel.shown) + [];
    }
  }

  /** As written, the last window of a scroll starts three characters
      before the end: the display gets a string one character short. */
  lemma ScrollEndsShort(c: seq<byte>)
    requires |c| >= 3
    ensures var w := Windows(c, |c| + 1);
            |w| == |c| - 2 && w[0] == c && |w[|w| - 1]| == 3
  {
  }

  /** With the standard string length every window holds at least four
      characters, and the last holds exactly the last four. */
  lemma ScrollWindowsFull(c: seq<byte>)
    requires |c| >= 4
    ensures var w := Windows(c, |c|);
            |w| == |c| - 3 && w[0] == c && w[|w| - 1] == c[|c| - 4..]
            && forall i | 0 <= i < |w| :: |w[i]| >= 4
  {
  }

  // ---------------------------------------------------------------------
  // Hexadecimal digits

  /** `c += (c > 9) ? 'A' - 10 : '0'`: the upper-case hex digit of `d`. */
  function HexChar(d: nat): (c: byte)
    requires d < 16
  {
    if d > 9 then d + ('A' as int - 10) else d + '0' as int
  }

  /** The value of an upper-case hex digit. */
  function DigitValue(c: byte): nat
  {
    if '0' as int <= c <= '9' as int then c - '0' as int
    else if 'A' as int <= c <= 'F' as int then c - 'A' as int + 10
    else 0
  }

  /** Each digit is one of 0-9 or A-F and reads back as its value. */
  lemma HexCharDecodes(d: nat)
    requires d < 16
    ensures '0' as int <= HexChar(d) <= '9' as int || 'A' as int <= HexChar(d) <= 'F' as int
    ensures HexChar(d) != 0 && DigitValue(HexChar(d)) == d
  {
  }

  /** The value of a string of hex digits, most significant first. */
  function HexValue(s: seq<byte>): int
  {
    if s == [] then 0 else 16 * HexValue(s[..|s| - 1]) + DigitValue(s[|s| - 1])
  }

  /** `x >> s` on a signed integer: an arithmetic shift, rounding down. */
  function Shr(x: int, s: nat): int
  {
    x / Pow2(s)
  }

  /** `(x >> 4k) & 0xf`: hex digit `k` of `x`, counted from the least
      significant, in two's complement for negative `x`. */
  function Nibble(x: int, k: nat): (r: nat)
    ensures r < 16
  {
    Shr(x, 4 * k) % 16
  }

  /** The `n` hex digits of `x`, most significant first. */
  function HexWord(x: int, n: nat): (r: seq<byte>)
    ensures |r| == n
  {
    seq(n, i requires 0 <= i < n => HexDigit(x, n - 1 - i))
  }

  /** The hex digit for digit `k` of `x`. */
  function HexDigit(x: int, k: nat): byte
  {
    HexChar(Nibble(x, k))
  }

  lemma {:induction false} MulAtLeast(d: nat, n: nat)
    requires n >= 1
    ensures d * n >= d
  {
    if n > 1 {
      MulAtLeast(d, n - 1);
      assert d * n == d * (n - 1) + d;
    }
  }

  lemma MulMono(d: int, a: int, b: int)
    requires d > 0 && a < b
    ensures d * a + d <= d * b
  {
    MulAtLeast(d, b - a);
    assert d * b == d * a + d * (b - a);
  }

  /** Quotient and remainder are the only ones with `x == d * q + r`. */
  lemma DivModUnique(x: int, d: int, q: int, r: int)
    requires d > 0 && 0 <= r < d && x == d * q + r
    ensures x / d == q && x % d == r
  {
    var q0 := x / d;
    if q0 < q { MulMono(d, q0, q); }
    if q < q0 { MulMono(d, q, q0); }
  }

  lemma Pow2Nibble(k: nat)
    ensures Pow2(4 * k + 4) == 16 * Pow2(4 * k)
  {
    assert Pow2(4 * k + 4) == 2 * Pow2(4 * k + 3);
    assert Pow2(4 * k + 3) == 2 * Pow2(4 * k + 2);
    assert Pow2(4 * k + 2) == 2 * Pow2(4 * k + 1);
  }

  /** Shifting by one more digit is shifting the value with its last
      digit dropped. */
  lemma ShiftNibble(x: int, k: nat)
    ensures x / Pow2(4 * k + 4) == (x / 16) / Pow2(4 * k)
    ensures x % Pow2(4 * k + 4) == 16 * ((x / 16) % Pow2(4 * k)) + x % 16
  {
    var p := Pow2(4 * k);
    Pow2Nibble(k);
    var q, r := x / 16, x % 16;
    var qq, rr := q / p, q % p;
    assert x == 16 * q + r;
    assert q == p * qq + rr;
    assert x == (16 * p) * qq + (16 * rr + r);
    MulMono(16, rr, p);
    DivModUnique(x, 16 * p, qq, 16 * rr + r);
  }

  /** Digit `k + 1` of `x` is digit `k` of `x / 16`. */
  lemma NibbleNext(x: int, k: nat)
    ensures Nibble(x, k + 1) == Nibble(x / 16, k)
  {
    ShiftNibble(x, k);
    assert 4 * (k + 1) == 4 * k + 4;
  }

  /** The digits of `x` are the digits of `x / 16` and then the last. */
  lemma HexWordNext(x: int, n: nat)
    ensures HexWord(x, n + 1) == HexWord(x / 16, n) + [HexChar(x % 16)]
  {
    var a, b := HexWord(x, n + 1), HexWord(x / 16, n) + [HexChar(x % 16)];
    forall i | 0 <= i < n + 1
      ensures a[i] == b[i]
    {
      if i < n {
        NibbleNext(x, n - 1 - i);
        assert a[i] == HexDigit(x, n - i) && b[i] == HexDigit(x / 16, n - 1 - i);
      } else {
        assert a[i] == HexDigit(x, 0) && Nibble(x, 0) == x % 16;
      }
    }
  }

  /** The `n` digits read back as `x` modulo `16^n`: for a negative `x`,
      its two's complement in `4n` bits. */
  lemma {:induction false} HexWordValue(x: int, n: nat)
    ensures HexValue(HexWord(x, n)) == x % Pow2(4 * n)
    decreases n
  {
    if n == 0 {
      assert HexWord(x, 0) == [];
    } else {
      var m := n - 1;
      HexWordNext(x, m);
      var s := HexWord(x, n);
      assert s[..|s| - 1] == HexWord(x / 16, m);
      HexWordValue(x / 16, m);
      HexCharDecodes(x % 16);
      ShiftNibble(x, m);
    }
  }

  /** A fresh copy of the literal `"    "` (or `"        "`): `n` spaces
      and the NUL. */
  method Blank(n: nat) returns (buf: array<byte>)
    ensures fresh(buf) && buf.Length == n + 1 && buf[n] == 0
    ensures forall j | 0 <= j < n :: buf[j] == ' ' as int
  {
    buf := new byte[n + 1](j => if j < n then ' ' as int else 0);
  }

  /** The digit loop of disp_hword and disp_word: `buf[i]` gets the hex
      digit of `(x >> (4n - 4 - 4i)) & 0xf`. */
  method FillHex(buf: array<byte>, x: int, n: nat)
    requires buf.Length == n + 1 && buf[n] == 0
    modifies buf
    ensures buf[..] == HexWord(x, n) + [0]
  {
    for i := 0 to n
      invariant buf[n] == 0
      invariant forall j | 0 <= j < i :: buf[j] == HexDigit(x, n - 1 - j)
    {
      var c := Shr(x, 4 * n - 4 - 4 * i) % 16;
      assert c == Nibble(x, n - 1 - i);
      c := c + if c > 9 then 'A' as int - 10 else '0' as int;
      buf[i] := c;
    }
    forall j | 0 <= j < n
      ensures buf[j] == HexWord(x, n)[j]
    {
      assert HexWord(x, n)[j] == HexDigit(x, n - 1 - j);
    }
    assert buf[..] == HexWord(x, n) + [0];
  }

  /** disp_hword: the four hex digits of a 16-bit value on the display. */
  method DispHword(panel: Panel, x: int)
    requires -0x8000 <= x < 0x8000
    modifies panel
    ensures panel.shown == old(panel.shown) + [HexWord(x, 4)] && panel.lit == old(panel.lit)
  {
    var buf := Blank(4);
    FillHex(buf, x, 4);
    HexWordPrintable(x, 4);
    CStringOfBuffer(buf[..], 4);
    panel.DispPut(buf, 0);
  }

  /** disp_word: the eight hex digits of a 32-bit value, scrolled. */
  method DispWord(panel: Panel, x: int)
    requires -0x8000_0000 <= x < 0x8000_0000
    modifies panel
    ensures panel.shown == old(panel.shown) + Windows(HexWord(x, 8), 9) && panel.lit == old(panel.lit)
  {
    var buf := Blank(8);
    FillHex(buf, x, 8);
    HexWordPrintable(x, 8);
    CStringOfBuffer(buf[..], 8);
    DispScroll(panel, buf, 0);
  }

  /** Hex digits are never NUL, so the digit buffer is one C string. */
  lemma HexWordPrintable(x: int, n: nat)
    ensures forall j | 0 <= j < n :: HexWord(x, n)[j] != 0
  {
    forall j | 0 <= j < n
      ensures HexWord(x, n)[j] != 0
    {
      HexCharDecodes(Nibble(x, n - 1 - j));
      assert HexWord(x, n)[j] == HexDigit(x, n - 1 - j);
    }
  }

  /** What disp_hword shows reads back as the 16-bit pattern of `x`. */
  lemma HwordReadsBack(x: int)
    requires -0x8000 <= x < 0x8000
    ensures HexValue(HexWord(x, 4)) == x % 0x1_0000
  {
    HexWordValue(x, 4);
    Pow2Value32();
  }

  /** The eight digits disp_word scrolls read back as the 32-bit pattern
      of `x`. */
  lemma WordReadsBack(x: int)
    requires -0x8000_0000 <= x < 0x8000_0000
    ensures HexValue(HexWord(x, 8)) == x % 0x1_0000_0000
  {
    HexWordValue(x, 8);
    Pow2Value32();
  }
}
