/** The key indices of the firmware header: the number `get_key` takes for
    each button of the BCF2000/BCR2000. The encoder push buttons are not
    part of this model. */
module Keys {
  import opened Common

  function KeyRow1(x: nat): nat { 0x08 + x }
  function KeyRow2(x: nat): nat { 0x10 + x }
  function KeyGrp(x: nat): nat { 0x18 + x }
  const KeyStore: nat := 0x20
  const KeyLearn: nat := 0x21
  const KeyEdit: nat := 0x22
  const KeyExit: nat := 0x23
  function KeyBr(x: nat): nat { 0x24 + x }
  const KeyPPrev: nat := 0x1c
  const KeyPNext: nat := 0x1d

  /** The buttons the header names. */
  datatype Key =
    | Row1(x: nat)          // row 1 below the encoders, 0-7
    | Row2(x: nat)          // row 2 below the encoders, 0-7
    | Group(x: nat)         // encoder groups, 0-3
    | Store | Learn | Edit | Exit
    | BottomRight(x: nat)   // bottom right buttons, 0-3
    | PresetPrev | PresetNext

  /** The ranges the header's comments give for each macro argument. */
  predicate ValidKey(k: Key)
  {
    match k
    case Row1(x) => x < 8
    case Row2(x) => x < 8
    case Group(x) => x < 4
    case BottomRight(x) => x < 4
    case _ => true
  }

  /** The index of a key, by the macro that names it. */
  function KeyIndex(k: Key): nat
  {
    match k
    case Row1(x) => KeyRow1(x)
    case Row2(x) => KeyRow2(x)
    case Group(x) => KeyGrp(x)
    case Store => KeyStore
    case Learn => KeyLearn
    case Edit => KeyEdit
    case Exit => KeyExit
    case BottomRight(x) => KeyBr(x)
    case PresetPrev => KeyPPrev
    case PresetNext => KeyPNext
  }

  /** The key an index stands for, if any. */
  function KeyAt(n: nat): (r: Option<Key>)
    ensures r.Some? ==> ValidKey(r.value) && KeyIndex(r.value) == n
  {
    if 0x08 <= n < 0x10 then Some(Row1(n - 0x08))
    else if 0x10 <= n < 0x18 then Some(Row2(n - 0x10))
    else if 0x18 <= n < 0x1c then Some(Group(n - 0x18))
    else if n == 0x1c then Some(PresetPrev)
    else if n == 0x1d then Some(PresetNext)
    else if n == 0x20 then Some(Store)
    else if n == 0x21 then Some(Learn)
    else if n == 0x22 then Some(Edit)
    else if n == 0x23 then Some(Exit)
    else if 0x24 <= n < 0x28 then Some(BottomRight(n - 0x24))
    else None
  }

  /** Every key's index reads back as that key. */
  lemma KeyIndexDecodes(k: Key)
    requires ValidKey(k)
    ensures KeyAt(KeyIndex(k)) == Some(k)
  {
  }

  /** No two keys share an index. */
  lemma KeyIndicesDistinct(a: Key, b: Key)
    requires ValidKey(a) && ValidKey(b) && KeyIndex(a) == KeyIndex(b)
    ensures a == b
  {
    KeyIndexDecodes(a);
    KeyIndexDecodes(b);
  }

  /** The sixteen indices from KEY_ROW1(0) on are the two button rows:
      row 1 gives 0-7 and row 2 gives 8-F. */
  lemma RowsFollowEachOther(k: nat)
    requires k < 16
    ensures KeyAt(KeyRow1(0) + k) == Some(if k < 8 then Row1(k) else Row2(k - 8))
  {
  }
}

/** The LED indices of the firmware header: the number `set_led` takes for
    each light. */
module Leds {
  import opened Common

  function LedRow1(x: nat): nat { 0x47 + 8 * x }
  function LedRow2(x: nat): nat { 0x80 + x }
  function LedGrp(x: nat): nat { 0x88 + x }
  const LedMidiIn: nat := 0x90
  const LedMidiA: nat := 0x91
  const LedMidiB: nat := 0x92
  const LedFootSw: nat := 0x93
  const LedFootCtrl: nat := 0x94
  const LedUsbMode: nat := 0x95
  const LedStore: nat := 0x98
  const LedLearn: nat := 0x99
  const LedEdit: nat := 0x9a
  const LedExit: nat := 0x9b
  function LedBr(x: nat): nat { 0x9c + x }

  /** The part of LED_ENC that depends on the encoder's group of eight:
      `(x >> 3) * 0x80 + (x > 7 ? 0x40 : 0)`. */
  function GroupOffset(x: nat): nat
  {
    (x / 8) * 0x80 + (if x > 7 then 0x40 else 0)
  }

  /** LED_ENC: ring position `p` of encoder `x`. */
  function LedEnc(x: nat, p: nat): nat
  {
    8 * (x % 8) + GroupOffset(x) + p % 8 + (if p > 7 then 0x40 else 0)
  }

  /** LED_DISP: segment `p` of display digit `x`. */
  function LedDisp(x: nat, p: nat): nat
  {
    0xa0 + (x * 8 + p)
  }

  /** The lights the header names. */
  datatype Led =
    | Encoder(x: nat, p: nat)   // BCF: 0-7, BCR: 0-31; position 0-14
    | Row1(x: nat)              // 0-7
    | Row2(x: nat)              // 0-7
    | Group(x: nat)             // 0-3
    | MidiIn | MidiA | MidiB | FootSwitch | FootControl | UsbMode
    | Store | Learn | Edit | Exit
    | BottomRight(x: nat)       // 0-3
    | Digit(x: nat, p: nat)     // display digit 0-3, segment 0-7

  /** The ranges the header's comments give for each macro argument. */
  predicate ValidLed(l: Led)
  {
    match l
    case Encoder(x, p) => x < 32 && p < 15
    case Row1(x) => x < 8
    case Row2(x) => x < 8
    case Group(x) => x < 4
    case BottomRight(x) => x < 4
    case Digit(x, p) => x < 4 && p < 8
    case _ => true
  }

  /** The index of a light, by the macro that names it. */
  function LedIndex(l: Led): nat
  {
    match l
    case Encoder(x, p) => LedEnc(x, p)
    case Row1(x) => LedRow1(x)
    case Row2(x) => LedRow2(x)
    case Group(x) => LedGrp(x)
    case MidiIn => LedMidiIn
    case MidiA => LedMidiA
    case MidiB => LedMidiB
    case FootSwitch => LedFootSw
    case FootControl => LedFootCtrl
    case UsbMode => LedUsbMode
    case Store => LedStore
    case Learn => LedLearn
    case Edit => LedEdit
    case Exit => LedExit
    case BottomRight(x) => LedBr(x)
    case Digit(x, p) => LedDisp(x, p)
  }

  /** The table in the header's comment: encoders 0-7, 8-15, 16-23 and
      24-31 start at 0x000, 0x0C0, 0x140 and 0x1C0. */
  lemma GroupOffsets(x: nat)
    requires x < 32
    ensures GroupOffset(x) == if x < 8 then 0x000 else if x < 16 then 0x0c0 else if x < 24 then 0x140 else 0x1c0
  {
  }

  /** An encoder LED below 0x80 (encoders 0-7), split into its group of
      64, its encoder and its position. */
  function LowEncoderAt(n: nat): Led
    requires n < 0x80
  {
    Encoder((n / 8) % 8, n % 8 + (if n >= 0x40 then 8 else 0))
  }

  /** An encoder LED from 0xC0 to 0x23F (encoders 8-31): the band of 64
      is the group offset plus 0x40 for positions above 7. */
  function HighEncoderAt(n: nat): Option<Led>
    requires 0xc0 <= n < 0x240
  {
    var band := n / 0x40;
    var upper := band % 2 == 0;
    var g := if upper then band - 1 else band;
    if upper && n % 8 == 7 then None
    else Some(Encoder(8 * ((g - 1) / 2) + (n / 8) % 8, n % 8 + (if upper then 8 else 0)))
  }

  /** The light an index stands for, if any. */
  function LedAt(n: nat): (r: Option<Led>)
  {
    if n < 0x80 then
      (if n >= 0x40 && n % 8 == 7 then Some(Row1((n - 0x47) / 8)) else Some(LowEncoderAt(n)))
    else if n < 0x88 then Some(Row2(n - 0x80))
    else if n < 0x8c then Some(Group(n - 0x88))
    else if n == 0x90 then Some(MidiIn)
    else if n == 0x91 then Some(MidiA)
    else if n == 0x92 then Some(MidiB)
    else if n == 0x93 then Some(FootSwitch)
    else if n == 0x94 then Some(FootControl)
    else if n == 0x95 then Some(UsbMode)
    else if n == 0x98 then Some(Store)
    else if n == 0x99 then Some(Learn)
    else if n == 0x9a then Some(Edit)
    else if n == 0x9b then Some(Exit)
    else if 0x9c <= n < 0xa0 then Some(BottomRight(n - 0x9c))
    else if 0xa0 <= n < 0xc0 then Some(Digit((n - 0xa0) / 8, (n - 0xa0) % 8))
    else if 0xc0 <= n < 0x240 then HighEncoderAt(n)
    else None
  }

  /** A number `64 * b + 8 * a + c` with `a` and `c` below 8 has those
      three digits. */
  lemma Digits(n: nat, b: nat, a: nat, c: nat)
    requires a < 8 && c < 8 && n == 64 * b + 8 * a + c
    ensures n / 0x40 == b && (n / 8) % 8 == a && n % 8 == c
  {
    assert n / 8 == 8 * b + a;
  }

  /** Every encoder LED's index reads back as that encoder and position. */
  lemma EncoderDecodes(x: nat, p: nat)
    requires x < 32 && p < 15
    ensures LedAt(LedEnc(x, p)) == Some(Encoder(x, p))
  {
    if x < 8 {
      LowEncoderDecodes(x, p);
    } else {
      HighEncoderDecodes(x, p);
    }
  }

  /** Encoders 0-7 take the indices below 0x80. */
  lemma LowEncoderDecodes(x: nat, p: nat)
    requires x < 8 && p < 15
    ensures LedAt(LedEnc(x, p)) == Some(Encoder(x, p))
  {
    var upper := if p > 7 then 1 else 0;
    assert GroupOffset(x) == 0;
    Digits(LedEnc(x, p), upper, x, p % 8);
  }

  /** Encoders 8-31 take the indices from 0xC0 on, one band of 64 per half
      ring. */
  lemma HighEncoderDecodes(x: nat, p: nat)
    requires 8 <= x < 32 && p < 15
    ensures LedAt(LedEnc(x, p)) == Some(Encoder(x, p))
  {
    var upper := if p > 7 then 1 else 0;
    var g := 2 * (x / 8) + 1;
    assert GroupOffset(x) == 0x40 * g;
    Digits(LedEnc(x, p), g + upper, x % 8, p % 8);
    assert x == 8 * (x / 8) + x % 8;
  }

  /** Every light's index reads back as that light. */
  lemma LedIndexDecodes(l: Led)
    requires ValidLed(l)
    ensures LedAt(LedIndex(l)) == Some(l)
  {
    match l
    case Encoder(x, p) => EncoderDecodes(x, p);
    case Row1(x) => Row1Decodes(x);
    case Digit(x, p) => DigitDecodes(x, p);
    case _ =>
  }

  /** A row-1 button's index reads back as that button. */
  lemma Row1Decodes(x: nat)
    requires x < 8
    ensures LedAt(LedRow1(x)) == Some(Row1(x))
  {
    Digits(LedRow1(x), 1, x, 7);
    assert (LedRow1(x) - 0x47) / 8 == x;
  }

  /** A display segment's index reads back as that digit and segment. */
  lemma DigitDecodes(x: nat, p: nat)
    requires x < 4 && p < 8
    ensures LedAt(LedDisp(x, p)) == Some(Digit(x, p))
  {
    assert LedDisp(x, p) - 0xa0 == 8 * x + p;
  }

  /** No two lights share an index: looping over the indices visits each
      light once. */
  lemma LedIndicesDistinct(a: Led, b: Led)
    requires ValidLed(a) && ValidLed(b) && LedIndex(a) == LedIndex(b)
    ensures a == b
  {
    LedIndexDecodes(a);
    LedIndexDecodes(b);
  }

  /** The display segments take exactly the indices 0xA0 to 0xBF. */
  lemma DigitsCoverRange(n: nat)
    ensures (0xa0 <= n < 0xc0) <==> (exists x, p :: x < 4 && p < 8 && LedDisp(x, p) == n)
  {
    if 0xa0 <= n < 0xc0 {
      var x, p := (n - 0xa0) / 8, (n - 0xa0) % 8;
      assert LedDisp(x, p) == n;
    }
  }

  /** The LED of a row-1 button sits where position 15 of the encoder
      above it would be. */
  lemma Row1AboveRing(x: nat)
    requires x < 8
    ensures LedRow1(x) == LedEnc(x, 15)
  {
  }
}
