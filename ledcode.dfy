/** The ledcode example program: two hex digits are entered on the two
    button rows below the encoders, shown on the display, and the LED with
    that code is switched on. The key polling is given as the set of keys
    held down when each scan runs. */
module LedCode {
  import opened Common
  import opened FirmwareLib
  import Keys

  /** What disp_byte shows: two spaces, the high digit, then `-` or the
      low digit. `char` is unsigned on the target, so `number >> 4` is
      the high nibble. */
  function ByteText(number: byte, maskfirst: bool): seq<byte>
  {
    [' ' as int, ' ' as int, HexChar(number / 16 % 16),
     if maskfirst then '-' as int else HexChar(number % 16)]
  }

  /** disp_byte: fill a blank four-character buffer and show it. */
  method DispByte(panel: Panel, number: byte, maskfirst: byte)
    modifies panel
    ensures panel.shown == old(panel.shown) + [ByteText(number, maskfirst != 0)]
    ensures panel.lit == old(panel.lit)
  {
    var buf := Blank(4);
    var c := number / 16 % 16;
    buf[2] := c + if c > 9 then 'A' as int - 10 else '0' as int;
    if maskfirst != 0 {
      buf[3] := '-' as int;
    } else {
      var d := number % 16;
      buf[3] := d + if d > 9 then 'A' as int - 10 else '0' as int;
    }
    HexCharDecodes(c);
    HexCharDecodes(number % 16);
    CStringOfBuffer(buf[..], 4);
    assert buf[..4] == ByteText(number, maskfirst != 0);
    panel.DispPut(buf, 0);
  }

  /** The first of the `n` key indices from `from` on that is held down,
      counted from `from`. */
  function FirstPressed(pressed: set<nat>, from: nat, n: nat): (r: Option<nat>)
    ensures r.Some? ==> r.value < n && from + r.value in pressed
                        && forall j | from <= j < from + r.value :: j !in pressed
    ensures r.None? ==> forall j | from <= j < from + n :: j !in pressed
    decreases n
  {
    if n == 0 then None
    else if from in pressed then Some(0)
    else
      var rest := FirstPressed(pressed, from + 1, n - 1);
      if rest.Some? then Some(rest.value + 1) else None
  }

  /** The digit scan of main: indices KEY_ROW1(0) to KEY_ROW1(0) + 15 are
      tried in order and the first held down gives the digit. */
  method ScanDigit(pressed: set<nat>) returns (digit: Option<nat>)
    ensures digit == FirstPressed(pressed, Keys.KeyRow1(0), 16)
  {
    var i := Keys.KeyRow1(0);
    while i < Keys.KeyRow1(0) + 16
      invariant Keys.KeyRow1(0) <= i <= Keys.KeyRow1(0) + 16
      invariant forall j | Keys.KeyRow1(0) <= j < i :: j !in pressed
    {
      if i in pressed {
        return Some(i - Keys.KeyRow1(0));
      }
      i := i + 1;
    }
    return None;
  }

  /** A scanned digit is its key's position in row 1 (0-7) or in row 2
      plus eight (8-F). */
  lemma DigitKey(pressed: set<nat>)
    requires FirstPressed(pressed, Keys.KeyRow1(0), 16).Some?
    ensures var d := FirstPressed(pressed, Keys.KeyRow1(0), 16).value;
            d < 16 && Keys.KeyAt(Keys.KeyRow1(0) + d) == Some(if d < 8 then Keys.Row1(d) else Keys.Row2(d - 8))
            && Keys.KeyIndex(if d < 8 then Keys.Row1(d) else Keys.Row2(d - 8)) in pressed
  {
    var d := FirstPressed(pressed, Keys.KeyRow1(0), 16).value;
    Keys.RowsFollowEachOther(d);
  }

  /** C's `|` on non-negative integers, bit by bit from the bottom. */
  function Or(a: nat, b: nat): nat
    decreases a + b
  {
    if a == 0 && b == 0 then 0
    else 2 * Or(a / 2, b / 2) + (if a % 2 == 1 || b % 2 == 1 then 1 else 0)
  }

  lemma {:induction false} OrBound(a: nat, b: nat, n: nat)
    requires a < Pow2(n) && b < Pow2(n)
    ensures Or(a, b) < Pow2(n)
    decreases n
  {
    if a == 0 && b == 0 {
    } else {
      assert n > 0;
      OrBound(a / 2, b / 2, n - 1);
    }
  }

  /** `a | b` on bytes. */
  function Or8(a: byte, b: byte): byte
  {
    Pow2Value32();
    OrBound(a, b, 8);
    Or(a, b)
  }

  lemma {:induction false} OrZero(a: nat)
    ensures Or(a, 0) == a
    decreases a
  {
    if a != 0 {
      OrZero(a / 2);
    }
  }

  /** Or-ing bits below position `k` into a multiple of `2^k` adds them. */
  lemma {:induction false} OrLowBits(a: nat, b: nat, k: nat)
    requires b < Pow2(k)
    ensures Or(a * Pow2(k), b) == a * Pow2(k) + b
    decreases k
  {
    if k == 0 {
      OrZero(a);
    } else {
      var p := Pow2(k - 1);
      var m := a * p;
      assert a * Pow2(k) == 2 * m;
      OrLowBits(a, b / 2, k - 1);
      if m != 0 || b != 0 {
        assert Or(2 * m, b) == 2 * Or(m, b / 2) + b % 2;
      }
    }
  }

  /** The LED code after the first digit: `(i - KEY_ROW1(0)) << 4`, or the
      old code when the scan found no key. */
  function AfterFirst(led: byte, first: Option<nat>): byte
    requires first.Some? ==> first.value < 16
  {
    if first.Some? then first.value * 16 else led
  }

  /** The LED code after the second digit: `led |= i - KEY_ROW1(0)`. */
  function AfterSecond(led: byte, second: Option<nat>): byte
    requires second.Some? ==> second.value < 16
  {
    if second.Some? then Or8(led, second.value) else led
  }

  /** One pass of main's outer loop, once the keys are down: scan for the
      first digit, show it with the second masked, scan for the second,
      show the whole code and switch that LED on. `first` and `second`
      are the keys held down when each scan ends its waiting. */
  method EnterCode(panel: Panel, led: byte, first: set<nat>, second: set<nat>) returns (code: byte)
    modifies panel
    ensures var d1 := FirstPressed(first, Keys.KeyRow1(0), 16);
            var d2 := FirstPressed(second, Keys.KeyRow1(0), 16);
            code == AfterSecond(AfterFirst(led, d1), d2)
            && panel.shown == old(panel.shown) + [ByteText(AfterFirst(led, d1), true), ByteText(code, false)]
            && panel.lit == old(panel.lit) + [code]
  {
    code := led;
    var d1 := ScanDigit(first);
    if d1.Some? {
      code := d1.value * 16;
    }
    DispByte(panel, code, 1);
    var d2 := ScanDigit(second);
    if d2.Some? {
      code := Or8(code, d2.value);
    }
    DispByte(panel, code, 0);
    panel.SetLed(code);
  }

  /** A high nibble and a low nibble combine by `|` into `16 * hi + lo`. */
  lemma OrNibbles(hi: nat, lo: nat)
    requires hi < 16 && lo < 16
    ensures Or8(hi * 16, lo) == 16 * hi + lo
  {
    assert Pow2(4) == 16;
    OrLowBits(hi, lo, 4);
  }

  /** With both digits entered, the LED switched on is the code typed,
      high digit first; the display shows the high digit with a dash, then
      both digits as typed. */
  lemma CodeAsTyped(led: byte, hi: nat, lo: nat)
    requires hi < 16 && lo < 16
    ensures var code := AfterSecond(AfterFirst(led, Some(hi)), Some(lo));
            code == 16 * hi + lo
            && ByteText(AfterFirst(led, Some(hi)), true) == [' ' as int, ' ' as int, HexChar(hi), '-' as int]
            && ByteText(code, false) == [' ' as int, ' ' as int, HexChar(hi), HexChar(lo)]
  {
    OrNibbles(hi, lo);
    assert (16 * hi + lo) / 16 == hi && (16 * hi + lo) % 16 == lo;
    assert (hi * 16) / 16 == hi;
  }

  /** The digits disp_byte shows read back as the byte. */
  lemma ByteTextReadsBack(number: byte)
    ensures HexValue(ByteText(number, false)[2..]) == number
    ensures DigitValue(ByteText(number, true)[2]) == number / 16 && ByteText(number, true)[3] == '-' as int
  {
    var t := ByteText(number, false)[2..];
    HexCharDecodes(number / 16 % 16);
    HexCharDecodes(number % 16);
    assert t[..1][..0] == [];
    assert t[..|t| - 1] == t[..1] == [HexChar(number / 16 % 16)];
    assert HexValue(t[..1]) == number / 16;
  }
}
