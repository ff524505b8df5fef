/** The operating-system image format of the flash dump: the 32-bit word
    packing helpers, the two repeating cipher tables that obscure every word,
    and the conversion between a plain OS image and the ciphered flash
    portion that starts with a size word and a checksum word. */
module OsImage {
  import opened Common

  // ---------------------------------------------------------------------
  // Little-endian words

  /** The word made of the first four bytes, lowest byte first. */
  function UnpackWord(x: seq<byte>): word
    requires |x| >= 4
  {
    x[3] as int * 0x100_0000 + x[2] as int * 0x1_0000 + x[1] as int * 0x100 + x[0]
  }

  /** wunpack: fewer than four bytes raise, otherwise the first four bytes
      are read lowest first and the rest ignored. */
  function Wunpack(x: seq<byte>): (r: Result<word>)
    ensures r.Failure? <==> |x| < 4
    ensures r.Failure? ==> r.error == ShortWord
  {
    if |x| < 4 then Failure(ShortWord)
    else Success(UnpackWord(x))
  }

  /** wpack: the four bytes of a word, lowest first. */
  function Wpack(w: word): (r: seq<byte>)
    ensures |r| == 4
  {
    var q1 := w / 0x100;
    var q2 := q1 / 0x100;
    var q3 := q2 / 0x100;
    [w % 0x100, q1 % 0x100, q2 % 0x100, q3 % 0x100]
  }

  /** Packing a word and reading it back gives the word. */
  lemma UnpackWordWpack(w: word)
    ensures UnpackWord(Wpack(w)) == w
  {
    var q1 := w / 0x100;
    var q2 := q1 / 0x100;
    var q3 := q2 / 0x100;
    assert w == q1 * 0x100 + w % 0x100;
    assert q1 == q2 * 0x100 + q1 % 0x100;
    assert q2 == q3 * 0x100 + q2 % 0x100;
    assert q3 < 0x100;
  }

  /** Reading four bytes as a word and packing it gives the four bytes. */
  lemma WpackUnpackWord(x: seq<byte>)
    requires |x| >= 4
    ensures Wpack(UnpackWord(x)) == x[..4]
  {
    var w := UnpackWord(x);
    var q1: int := x[3] as int * 0x1_0000 + x[2] as int * 0x100 + x[1];
    var q2: int := x[3] as int * 0x100 + x[2];
    assert w == q1 * 0x100 + x[0];
    assert w / 0x100 == q1 && w % 0x100 == x[0];
    assert q1 == q2 * 0x100 + x[1];
    assert q1 / 0x100 == q2 && q1 % 0x100 == x[1];
    assert q2 / 0x100 == x[3] && q2 % 0x100 == x[2];
  }

  /** Unpacking a packed word gives it back. */
  lemma WunpackWpack(w: word)
    ensures Wunpack(Wpack(w)) == Success(w)
  {
    UnpackWordWpack(w);
  }

  // ---------------------------------------------------------------------
  // The word cipher

  /** _oscipher1: fifteen words used in turn. */
  const OsCipher1: seq<word> :=
    [ 0x2726534c, 0x3971212d, 0x71167b24, 0x69272171, 0x3b652f24,
      0x30293644, 0x541a183f, 0x2c3f7c31, 0x29287d28, 0x5648553d,
      0x4c4f1257, 0x31677518, 0x2e2e186a, 0x00554400, 0x44554d4d ]

  /** _oscipher2: fourteen words used in turn. */
  const OsCipher2: seq<word> :=
    [ 0x75697361, 0x77386664, 0x33363765, 0x20756934, 0x6920686a,
      0x74667564, 0x7437387a, 0x756f3372, 0x616f347a, 0x667a7569,
      0x616f2067, 0x74203738, 0x747a3738, 0x00756920 ]

  /** `_oscipher1[offset % len(_oscipher1)]`, one test per entry. */
  function Key1(o: nat): word
  {
    var i := o % 15;
    if i == 0 then 0x2726534c
    else if i == 1 then 0x3971212d
    else if i == 2 then 0x71167b24
    else if i == 3 then 0x69272171
    else if i == 4 then 0x3b652f24
    else if i == 5 then 0x30293644
    else if i == 6 then 0x541a183f
    else if i == 7 then 0x2c3f7c31
    else if i == 8 then 0x29287d28
    else if i == 9 then 0x5648553d
    else if i == 10 then 0x4c4f1257
    else if i == 11 then 0x31677518
    else if i == 12 then 0x2e2e186a
    else if i == 13 then 0x00554400
    else 0x44554d4d
  }

  /** `Key1` is the table `OsCipher1` taken cyclically. */
  lemma Key1Table(o: nat)
    ensures Key1(o) == OsCipher1[o % |OsCipher1|]
  {
  }

  /** `_oscipher2[offset % len(_oscipher2)]`, one test per entry. */
  function Key2(o: nat): word
  {
    var i := o % 14;
    if i == 0 then 0x75697361
    else if i == 1 then 0x77386664
    else if i == 2 then 0x33363765
    else if i == 3 then 0x20756934
    else if i == 4 then 0x6920686a
    else if i == 5 then 0x74667564
    else if i == 6 then 0x7437387a
    else if i == 7 then 0x756f3372
    else if i == 8 then 0x616f347a
    else if i == 9 then 0x667a7569
    else if i == 10 then 0x616f2067
    else if i == 11 then 0x74203738
    else if i == 12 then 0x747a3738
    else 0x00756920
  }

  /** `Key2` is the table `OsCipher2` taken cyclically. */
  lemma Key2Table(o: nat)
    ensures Key2(o) == OsCipher2[o % |OsCipher2|]
  {
  }

  /** os_decodeword: the word at word offset `o` exclusive-ored with the
      entries of both tables at that offset, each taken cyclically. */
  function DecodeWord(w: word, o: nat): word
  {
    Xor32(Xor32(w, Key1(o)), Key2(o))
  }

  /** The same function both ciphers and deciphers a word. */
  lemma DecodeWordInvolution(w: word, o: nat)
    ensures DecodeWord(DecodeWord(w, o), o) == w
  {
    var c1, c2 := Key1(o), Key2(o);
    var u := Xor(w, c1);
    var v := Xor(u, c2);
    assert DecodeWord(w, o) == v;
    assert Xor(Xor(v, c1), c2) == Xor(Xor(Xor(u, c1), c2), c2) by { XorSwap(u, c2, c1); }
    XorInvolution(w, c1);
    XorInvolution(w, c2);
  }

  /** Every word of `ws` ciphered with the offset of its position plus `k0`. */
  function Ciphered(ws: seq<word>, k0: nat): (r: seq<word>)
    ensures |r| == |ws|
  {
    seq(|ws|, i requires 0 <= i < |ws| => DecodeWord(ws[i], k0 + i))
  }

  /** Ciphering twice with the same offsets gives the words back. */
  lemma CipheredInvolution(ws: seq<word>, k0: nat)
    ensures Ciphered(Ciphered(ws, k0), k0) == ws
  {
    forall i | 0 <= i < |ws|
      ensures Ciphered(Ciphered(ws, k0), k0)[i] == ws[i]
    {
      DecodeWordInvolution(ws[i], k0 + i);
    }
  }

  // ---------------------------------------------------------------------
  // Word sequences in a byte list

  /** The `n` words stored from byte `start` on. */
  function Words(data: seq<byte>, start: nat, n: nat): (r: seq<word>)
    requires start + 4 * n <= |data|
    ensures |r| == n
  {
    seq(n, i requires 0 <= i < n => UnpackWord(data[start + 4 * i .. start + 4 * i + 4]))
  }

  /** Word `i` is read from byte `lo`. */
  lemma WordAt(data: seq<byte>, start: nat, n: nat, i: nat, lo: nat, hi: nat)
    requires start + 4 * n <= |data| && i < n && lo == start + 4 * i && hi == lo + 4
    ensures Words(data, start, n)[i] == UnpackWord(data[lo .. hi])
  {
  }

  /** Reading one more word appends it. */
  lemma WordsSnoc(data: seq<byte>, start: nat, m: nat, m1: nat, offset: nat, w: word)
    requires m1 == m + 1 && offset == start + 4 * m && offset + 4 <= |data|
    requires w == UnpackWord(data[offset .. offset + 4])
    ensures Words(data, start, m1) == Words(data, start, m) + [w]
  {
  }

  /** Reading one more word and ciphering it appends the ciphered word. */
  lemma CipheredWordsSnoc(data: seq<byte>, start: nat, m: nat, m1: nat, offset: nat, k0: nat, w: word)
    requires m1 == m + 1 && offset == start + 4 * m && offset + 4 <= |data|
    requires w == DecodeWord(UnpackWord(data[offset .. offset + 4]), k0 + m)
    ensures Ciphered(Words(data, start, m1), k0) == Ciphered(Words(data, start, m), k0) + [w]
  {
  }

  /** Every word packed, in order. */
  function PackAll(ws: seq<word>): (r: seq<byte>)
    ensures |r| == 4 * |ws|
  {
    if ws == [] then [] else PackAll(ws[..|ws| - 1]) + Wpack(ws[|ws| - 1])
  }

  /** Packing one more word appends its bytes. */
  lemma PackAllSnoc(ws: seq<word>, w: word)
    ensures PackAll(ws + [w]) == PackAll(ws) + Wpack(w)
  {
    assert (ws + [w])[..|ws|] == ws;
  }

  /** The bytes of word `i` in the packed sequence. */
  lemma {:induction false} PackAllAt(ws: seq<word>, i: nat, lo: nat, hi: nat)
    requires i < |ws| && lo == 4 * i && hi == lo + 4
    ensures PackAll(ws)[lo .. hi] == Wpack(ws[i])
  {
    var init := ws[..|ws| - 1];
    if i < |init| {
      PackAllAt(init, i, lo, hi);
      assert PackAll(ws)[lo .. hi] == PackAll(init)[lo .. hi];
    }
  }

  /** A slice of the second part of a concatenation. */
  lemma SliceOfSecond(a: seq<byte>, b: seq<byte>, lo: nat, hi: nat, x: nat, y: nat)
    requires lo == |a| + x && hi == |a| + y && x <= y <= |b|
    ensures (a + b)[lo..hi] == b[x..y]
  {
  }

  /** The words of a packed sequence read back are the words packed. */
  lemma WordsOfPacked(pre: seq<byte>, ws: seq<word>, k: nat)
    requires k <= |ws|
    ensures Words(pre + PackAll(ws), |pre|, k) == ws[..k]
  {
    var p := PackAll(ws);
    forall i | 0 <= i < k
      ensures Words(pre + p, |pre|, k)[i] == ws[i]
    {
      var lo, x := |pre| + 4 * i, 4 * i;
      var hi, y := lo + 4, x + 4;
      WordAt(pre + p, |pre|, k, i, lo, hi);
      SliceOfSecond(pre, p, lo, hi, x, y);
      PackAllAt(ws, i, x, y);
      UnpackWordWpack(ws[i]);
    }
  }

  /** Packing the words read from `data` gives the bytes they were read from. */
  lemma {:induction false} PackAllWords(data: seq<byte>, start: nat, n: nat)
    requires start + 4 * n <= |data|
    ensures PackAll(Words(data, start, n)) == data[start .. start + 4 * n]
  {
    if n > 0 {
      var ws := Words(data, start, n);
      var last := data[start + 4 * (n - 1) .. start + 4 * n];
      assert ws[..n - 1] == Words(data, start, n - 1);
      PackAllWords(data, start, n - 1);
      WpackUnpackWord(last);
      assert last[..4] == last;
      assert data[start .. start + 4 * (n - 1)] + last == data[start .. start + 4 * n];
    }
  }

  // ---------------------------------------------------------------------
  // The checksum

  /** `if dmagic & 1: dmagic |= 1 << 32` followed by `dmagic >>= 1`: the
      lowest bit moves to the top, a 32-bit rotation to the right. */
  function RotateRight(m: word): word
  {
    if m % 2 == 1 then (m + 0x1_0000_0000) / 2 else m / 2
  }

  /** A 32-bit rotation to the left. */
  function RotateLeft(m: word): word
  {
    (2 * m) % 0x1_0000_0000 + m / 0x8000_0000
  }

  /** The rotation loses no bit: rotating right then left restores the
      mask ... */
  lemma RotateLeftRight(m: word)
    ensures RotateLeft(RotateRight(m)) == m
  {
    var x := RotateRight(m);
    var d: int := 2 * (x as int);
    if m % 2 == 0 {
      assert d == m;
      assert d % 0x1_0000_0000 == m && x / 0x8000_0000 == 0;
    } else {
      assert d == m - 1 + 0x1_0000_0000;
      assert d % 0x1_0000_0000 == m - 1 && x / 0x8000_0000 == 1;
    }
  }

  /** ... and rotating left then right restores it too. */
  lemma RotateRightLeft(m: word)
    ensures RotateRight(RotateLeft(m)) == m
  {
    var x := RotateLeft(m);
    if m < 0x8000_0000 {
      assert x == 2 * m;
      assert x % 2 == 0 && x / 2 == m;
    } else {
      var r: int := (m as int) - 0x8000_0000;
      assert 2 * (m as int) == 2 * r + 0x1_0000_0000;
      assert x == 2 * r + 1;
      assert x % 2 == 1 && ((x as int) + 0x1_0000_0000) / 2 == m;
    }
  }

  /** The checksum mask after `k` rotations of 0x42474552. */
  function Mask(k: nat): word
  {
    if k == 0 then 0x42474552 else RotateRight(Mask(k - 1))
  }

  /** The unreduced checksum: word `i` is exclusive-ored with the mask after
      `i + 1` rotations, and the results are added. */
  function ImageSum(ws: seq<word>): nat
  {
    if ws == [] then 0 else ImageSum(ws[..|ws| - 1]) + Xor(Mask(|ws|), ws[|ws| - 1])
  }

  /** One more word adds its masked value. */
  lemma ImageSumSnoc(ws: seq<word>, w: word)
    ensures ImageSum(ws + [w]) == ImageSum(ws) + Xor(Mask(|ws| + 1), w)
  {
    assert (ws + [w])[..|ws|] == ws;
  }

  /** `checksum &= 0xffffffff`. */
  function Checksum(ws: seq<word>): word
  {
    ImageSum(ws) % 0x1_0000_0000
  }

  // ---------------------------------------------------------------------
  // Sizes

  /** The size test both directions share: `size <= 0 or
      ((size+3)/4)*4+0x2008 > 0x7ffff` raises. */
  predicate ValidSize(size: int)
  {
    0 < size && (size + 3) / 4 * 4 + 0x2008 <= 0x7ffff
  }

  /** The number of words an image of `size` bytes takes. */
  function WordCount(size: nat): nat
  {
    (size + 3) / 4
  }

  /** A word starts inside the image exactly when its index is below the
      word count. */
  lemma WordCountBound(size: nat, m: nat)
    ensures 4 * m < size <==> m < WordCount(size)
  {
  }

  /** The filler os2dump appends so that the size and checksum words plus
      the image end on a 0x1000-byte page. */
  function PadLength(size: nat): nat
  {
    (0x1000 - (size + 8) % 0x1000) % 0x1000
  }

  /** The filler makes the size and checksum words plus the image end on a
      page boundary. */
  lemma PadEndsPage(size: nat)
    ensures (size + 8 + PadLength(size)) % 0x1000 == 0
  {
    var q, r := (size + 8) / 0x1000, (size + 8) % 0x1000;
    if r == 0 {
      assert PadLength(size) == 0;
    } else {
      assert PadLength(size) == 0x1000 - r;
      assert size + 8 + PadLength(size) == 0x1000 * (q + 1);
    }
  }

  /** The padded image ends a page, is whole words, and holds every word
      of the image. */
  lemma PaddedSize(size: nat)
    ensures (size + 8 + PadLength(size)) % 0x1000 == 0
    ensures (size + PadLength(size)) % 4 == 0
    ensures size <= 4 * WordCount(size) <= size + PadLength(size)
  {
    PadEndsPage(size);
    PageWords(size + 8 + PadLength(size));
    WordsWithin(size, size + PadLength(size));
  }

  /** What follows the two header words of a whole number of pages is a
      whole number of words. */
  lemma PageWords(x: nat)
    requires x % 0x1000 == 0 && x >= 8
    ensures (x - 8) % 4 == 0
  {
    var k := x / 0x1000;
    assert x == 0x1000 * k;
    assert x - 8 == 4 * (0x400 * k - 2);
  }

  /** The words of an image fit in any whole number of words that holds it. */
  lemma WordsWithin(size: nat, x: nat)
    requires size <= x && x % 4 == 0
    ensures size <= 4 * WordCount(size) <= x
  {
  }

  /** The padded image is a whole number of words, at least the image's. */
  lemma PaddedWords(size: nat, len: nat, total: nat)
    requires len == size + PadLength(size) && total == len / 4
    ensures len == 4 * total && WordCount(size) <= total
  {
    PaddedSize(size);
  }

  /** The list `[0] * n` after some of it was overwritten by `p` from the
      front; slice assignment past the end makes it longer. */
  function Filled(p: seq<byte>, n: nat): (r: seq<byte>)
    ensures |r| == if |p| < n then n else |p|
    ensures r[..|p|] == p
  {
    if |p| < n then p + Repeat(0, n - |p|) else p
  }

  /** `odata[o:o+4] = wpack(w)` at the end of what was already written. */
  lemma FilledStep(pre: seq<byte>, p: seq<byte>, n: nat, w4: seq<byte>, lo: nat)
    requires |w4| == 4 && lo == |pre| + |p|
    ensures SliceAssign(pre + Filled(p, n), lo, lo + 4, w4) == pre + Filled(p + w4, n)
  {
    var z: seq<byte> := if |p| < n then Repeat(0, n - |p|) else [];
    AppendAssoc(pre, p, z);
    SliceAssignEnd(pre + p, z, w4);
    if |p| + 4 <= n {
      assert z[4..] == Repeat(0, n - |p| - 4);
    }
    AppendAssoc(pre, p, w4);
    AppendAssoc(pre, p + w4, if 4 <= |z| then z[4..] else []);
  }

  // ---------------------------------------------------------------------
  // Loop states shared by both directions

  /** The checksum loop after the words `ws`: the mask has turned once per
      word and the sum holds every masked word. */
  ghost predicate Summed(ws: seq<word>, dmagic: nat, checksum: nat)
  {
    dmagic == Mask(|ws|) && checksum == ImageSum(ws)
  }

  /** One pass of the checksum loop: rotate the mask, add the masked word. */
  lemma SummedStep(ws: seq<word>, w: word, dmagic: nat, checksum: nat, dmagic': nat, checksum': nat)
    requires Summed(ws, dmagic, checksum)
    requires dmagic' == (if dmagic % 2 == 1 then dmagic + 0x1_0000_0000 else dmagic) / 2
    requires checksum' == checksum + Xor(dmagic', w)
    ensures Summed(ws + [w], dmagic', checksum')
  {
    ImageSumSnoc(ws, w);
  }

  /** The output list after the words `ws` were stored behind `head`. */
  ghost predicate Written(head: seq<byte>, ws: seq<word>, size: nat, odata: seq<byte>)
  {
    odata == head + Filled(PackAll(ws), size)
  }

  /** One more `odata[lo:hi] = wpack(w)` behind the words already stored. */
  lemma WrittenStep(head: seq<byte>, ws: seq<word>, w: word, size: nat, odata: seq<byte>, lo: nat, hi: nat)
    requires Written(head, ws, size, odata) && lo == |head| + 4 * |ws| && hi == lo + 4
    ensures lo <= |odata|
    ensures Written(head, ws + [w], size, SliceAssign(odata, lo, hi, Wpack(w)))
  {
    PackAllSnoc(ws, w);
    FilledStep(head, PackAll(ws), size, Wpack(w), lo);
  }

  /** `odata[lo:hi] = wpack(w)`, storing the next word behind `head` and
      the words `ws` already stored. */
  method StoreWord(odata: seq<byte>, lo: nat, hi: nat, w: word, ghost head: seq<byte>,
                   ghost ws: seq<word>, ghost size: nat) returns (r: seq<byte>)
    requires Written(head, ws, size, odata) && lo == |head| + 4 * |ws| && hi == lo + 4
    ensures Written(head, ws + [w], size, r)
  {
    WrittenStep(head, ws, w, size, odata, lo, hi);
    r := SliceAssign(odata, lo, hi, Wpack(w));
  }

  /** `if dmagic & 1: dmagic |= 1<<32`, `dmagic >>= 1`, `checksum += dmagic ^ w`:
      adds the next word to the checksum over the words `ws`. */
  method AddToChecksum(dmagic: nat, checksum: nat, w: word, ghost ws: seq<word>)
    returns (dmagic': nat, checksum': nat)
    requires Summed(ws, dmagic, checksum)
    ensures Summed(ws + [w], dmagic', checksum')
  {
    dmagic' := dmagic;
    if dmagic' % 2 == 1 {
      dmagic' := dmagic' + 0x1_0000_0000;
    }
    dmagic' := dmagic' / 2;
    checksum' := checksum + Xor(dmagic', w);
    SummedStep(ws, w, dmagic, checksum, dmagic', checksum');
  }

  // ---------------------------------------------------------------------
  // dump2os

  /** dump2os: the size word and checksum word are deciphered with offsets 0
      and 1; a bad size raises; the `(size+3)/4` words that follow are
      deciphered with offsets 2, 3, ...; the checksum over the deciphered
      words must match; the result is the deciphered words, which is the
      image rounded up to whole words. */
  function OsImage(idata: seq<byte>): (r: Result<seq<byte>>)
  {
    if |idata| < 8 then Failure(ShortWord)
    else
      var size := DecodeWord(UnpackWord(idata[0..4]), 0);
      var origsum := DecodeWord(UnpackWord(idata[4..8]), 1);
      if !ValidSize(size) then Failure(BadSize)
      else
        var n := WordCount(size);
        if |idata| < 8 + 4 * n then Failure(ShortWord)
        else
          var ws := Ciphered(Words(idata, 8, n), 2);
          if Checksum(ws) != origsum then Failure(ImageChecksumMismatch)
          else Success(PackAll(ws))
  }

  /** dump2os: reads the header words, checks the size, runs the loop
      below and compares the checksum. */
  method Dump2Os(idata: seq<byte>) returns (r: Result<seq<byte>>)
    ensures r == OsImage(idata)
  {
    var head := Wunpack(Slice(idata, 0, 4));
    if head.Failure? {
      OsImageRejects(idata);
      return Failure(head.error);
    }
    var size: nat := DecodeWord(head.value, 0);
    var sumField := Wunpack(Slice(idata, 4, 8));
    if sumField.Failure? {
      OsImageRejects(idata);
      return Failure(sumField.error);
    }
    var origsum := DecodeWord(sumField.value, 1);
    assert size == DecodeWord(UnpackWord(idata[0..4]), 0);
    assert origsum == DecodeWord(UnpackWord(idata[4..8]), 1);
    if size <= 0 || (size + 3) / 4 * 4 + 0x2008 > 0x7ffff {
      OsImageBadSize(idata, size);
      return Failure(BadSize);
    }
    OsImageOutcome(idata, size, origsum);
    var odata, sum := DecipherImage(idata, size);
    if odata.Failure? {
      return odata;
    }
    var checksum := sum % 0x1_0000_0000;
    if checksum != origsum {
      return Failure(ImageChecksumMismatch);
    }
    return odata;
  }

  /** One pass of the dump2os loop: the word read at `offset` is deciphered
      with offset `offset/4`, stored and added to the checksum. */
  method DecipherWord(offset: nat, unpacked: word, odata: seq<byte>, dmagic: nat, checksum: nat,
                      ghost idata: seq<byte>, ghost size: nat, ghost m: nat, ghost m1: nat,
                      ghost done: seq<word>)
    returns (odata': seq<byte>, dmagic': nat, checksum': nat, ghost done': seq<word>)
    requires offset == 8 + 4 * m && m1 == m + 1 && offset + 4 <= |idata|
    requires unpacked == UnpackWord(idata[offset .. offset + 4])
    requires done == Ciphered(Words(idata, 8, m), 2)
    requires Summed(done, dmagic, checksum) && Written([], done, size, odata)
    ensures done' == Ciphered(Words(idata, 8, m1), 2)
    ensures Summed(done', dmagic', checksum') && Written([], done', size, odata')
  {
    var word := DecodeWord(unpacked, offset / 4);
    assert offset / 4 == 2 + m;
    CipheredWordsSnoc(idata, 8, m, m1, offset, 2, word);
    odata' := StoreWord(odata, offset - 8, offset - 4, word, [], done, size);
    dmagic', checksum' := AddToChecksum(dmagic, checksum, word, done);
    done' := done + [word];
  }

  /** The loop of dump2os: the `(size+3)/4` words behind the header are
      deciphered, stored over `[0] * size` and added to the checksum; a
      word cut short by the end of the dump raises. */
  method DecipherImage(idata: seq<byte>, size: nat) returns (r: Result<seq<byte>>, checksum: nat)
    requires |idata| >= 8
    ensures |idata| < 8 + 4 * WordCount(size) ==> r == Failure(ShortWord)
    ensures |idata| >= 8 + 4 * WordCount(size) ==>
              var ws := Ciphered(Words(idata, 8, WordCount(size)), 2);
              r == Success(PackAll(ws)) && checksum == ImageSum(ws)
  {
    ghost var n := WordCount(size);
    var odata: seq<byte> := Repeat(0, size);
    var dmagic: nat := 0x42474552;
    checksum := 0;
    var offset: nat := 8;
    ghost var m: nat := 0;
    ghost var done: seq<word> := [];
    while offset < size + 8
      invariant offset == 8 + 4 * m && m <= n && offset <= |idata|
      invariant done == Ciphered(Words(idata, 8, m), 2)
      invariant Summed(done, dmagic, checksum)
      invariant Written([], done, size, odata)
    {
      WordCountBound(size, m);
      var unpacked := Wunpack(Slice(idata, offset, offset + 4));
      if unpacked.Failure? {
        return Failure(unpacked.error), checksum;
      }
      assert unpacked.value == UnpackWord(idata[offset .. offset + 4]);
      ghost var m1 := m + 1;
      odata, dmagic, checksum, done := DecipherWord(offset, unpacked.value, odata, dmagic, checksum,
                                                    idata, size, m, m1, done);
      offset := offset + 4;
      m := m1;
    }
    WordCountBound(size, m);
    assert m == n && |PackAll(done)| >= size;
    assert odata == [] + PackAll(done);
    assert odata == PackAll(done) && checksum == ImageSum(done);
    assert done == Ciphered(Words(idata, 8, WordCount(size)), 2);
    return Success(odata), checksum;
  }

  /** A dump shorter than the two header words fails. */
  lemma OsImageRejects(idata: seq<byte>)
    requires |idata| < 8
    ensures OsImage(idata) == Failure(ShortWord)
  {
  }

  /** A bad size field fails. */
  lemma OsImageBadSize(idata: seq<byte>, size: int)
    requires |idata| >= 8 && size == DecodeWord(UnpackWord(idata[0..4]), 0) && !ValidSize(size)
    ensures OsImage(idata) == Failure(BadSize)
  {
  }

  /** Once the size is good, the words behind the header and the checksum
      decide. */
  lemma OsImageOutcome(idata: seq<byte>, size: nat, origsum: word)
    requires |idata| >= 8 && ValidSize(size)
    requires size == DecodeWord(UnpackWord(idata[0..4]), 0)
    requires origsum == DecodeWord(UnpackWord(idata[4..8]), 1)
    ensures |idata| < 8 + 4 * WordCount(size) ==> OsImage(idata) == Failure(ShortWord)
    ensures |idata| >= 8 + 4 * WordCount(size) ==>
              var ws := Ciphered(Words(idata, 8, WordCount(size)), 2);
              OsImage(idata) == if Checksum(ws) != origsum then Failure(ImageChecksumMismatch)
                                else Success(PackAll(ws))
  {
  }

  // ---------------------------------------------------------------------
  // os2dump

  /** os2dump: a bad size raises; the image is padded with 0xff to a page
      boundary; the size and the checksum over the image's own words (the
      filler of the last word included, the pages of filler not) are
      ciphered with offsets 0 and 1 and lead; every padded word follows,
      ciphered with offsets 2, 3, .... */
  function OsDump(idata: seq<byte>): (r: Result<seq<byte>>)
  {
    var size := |idata|;
    if !ValidSize(size) then Failure(BadSize)
    else
      var padded := idata + Repeat(0xff, PadLength(size));
      PaddedSize(size);
      var sum := Checksum(Words(padded, 0, WordCount(size)));
      Success(Wpack(DecodeWord(size, 0)) + Wpack(DecodeWord(sum, 1))
              + PackAll(Ciphered(Words(padded, 0, |padded| / 4), 2)))
  }

  /** One pass of the os2dump loop: the word read at `offset` is ciphered
      with offset `offset/4 + 2` and stored behind the header; while
      `offset < size` the plain word is also added to the checksum. */
  method EncipherWord(offset: nat, word: word, odata: seq<byte>, dmagic: nat, checksum: nat,
                      ghost padded: seq<byte>, size: nat, ghost head: seq<byte>,
                      ghost m: nat, ghost m1: nat, ghost c: nat, ghost done: seq<word>)
    returns (odata': seq<byte>, dmagic': nat, checksum': nat, ghost c': nat, ghost done': seq<word>)
    requires offset == 4 * m && m1 == m + 1 && offset + 4 <= |padded| && |head| == 8
    requires word == UnpackWord(padded[offset .. offset + 4])
    requires c == if m < WordCount(size) then m else WordCount(size)
    requires done == Ciphered(Words(padded, 0, m), 2)
    requires Summed(Words(padded, 0, c), dmagic, checksum) && Written(head, done, size, odata)
    ensures c' == if m1 < WordCount(size) then m1 else WordCount(size)
    ensures done' == Ciphered(Words(padded, 0, m1), 2)
    ensures Summed(Words(padded, 0, c'), dmagic', checksum') && Written(head, done', size, odata')
  {
    var newword := DecodeWord(word, offset / 4 + 2);
    assert offset / 4 == m;
    CipheredWordsSnoc(padded, 0, m, m1, offset, 2, newword);
    odata' := StoreWord(odata, offset + 8, offset + 12, newword, head, done, size);
    done' := done + [newword];
    WordCountBound(size, m);
    dmagic', checksum', c' := dmagic, checksum, c;
    if offset < size {
      c' := c + 1;
      WordsSnoc(padded, 0, c, c', offset, word);
      dmagic', checksum' := AddToChecksum(dmagic, checksum, word, Words(padded, 0, c));
    }
  }

  /** `odata[0:4] = wpack(...)` on `[0] * (size + 8)`. */
  lemma SizeSlot(f: seq<byte>, size: nat, odata: seq<byte>)
    requires |f| == 4 && odata == SliceAssign(Repeat(0, size + 8), 0, 4, f)
    ensures odata == f + [0, 0, 0, 0] + Filled([], size)
  {
  }

  /** `odata[4:8] = wpack(...)` behind the size word. */
  lemma ChecksumSlot(f: seq<byte>, g: seq<byte>, p: seq<byte>, before: seq<byte>, odata: seq<byte>)
    requires |f| == 4 && |g| == 4 && before == f + [0, 0, 0, 0] + p
    requires odata == SliceAssign(before, 4, 8, g)
    ensures odata == f + g + p
  {
    assert before[..4] == f && before[8..] == p;
  }

  /** The value of a successful os2dump, with the padded image and the
      checksum named. */
  lemma OsDumpValue(idata: seq<byte>, padded: seq<byte>, sum: word)
    requires ValidSize(|idata|) && padded == idata + Repeat(0xff, PadLength(|idata|))
    requires sum == Checksum(Words(padded, 0, WordCount(|idata|)))
    ensures OsDump(idata) == Success(Wpack(DecodeWord(|idata|, 0)) + Wpack(DecodeWord(sum, 1))
                                     + PackAll(Ciphered(Words(padded, 0, |padded| / 4), 2)))
  {
  }

  /** os2dump: checks the size, pads the image, stores the ciphered size
      word, runs the loop below and stores the ciphered checksum word. */
  method Os2Dump(idata: seq<byte>) returns (r: Result<seq<byte>>)
    ensures r == OsDump(idata)
  {
    var size := |idata|;
    if size <= 0 || (size + 3) / 4 * 4 + 0x2008 > 0x7ffff {
      return Failure(BadSize);
    }
    var padded := idata + Repeat(0xff, (0x1000 - (size + 8) % 0x1000) % 0x1000);
    assert padded == idata + Repeat(0xff, PadLength(size));
    PaddedSize(size);
    var odata: seq<byte> := Repeat(0, size + 8);
    var sizeField := Wpack(DecodeWord(size, 0));
    odata := SliceAssign(odata, 0, 4, sizeField);
    ghost var head := sizeField + [0, 0, 0, 0];
    SizeSlot(sizeField, size, odata);
    var checksum;
    odata, checksum := EncipherImage(padded, size, odata, head);
    ghost var body := PackAll(Ciphered(Words(padded, 0, |padded| / 4), 2));
    var sumField := Wpack(DecodeWord(checksum, 1));
    ghost var before := odata;
    odata := SliceAssign(odata, 4, 8, sumField);
    ChecksumSlot(sizeField, sumField, body, before, odata);
    OsDumpValue(idata, padded, checksum);
    return Success(odata);
  }

  /** The loop of os2dump, one word per pass, and the final `checksum &=
      0xffffffff`. */
  method EncipherImage(padded: seq<byte>, size: nat, odata: seq<byte>, ghost head: seq<byte>)
    returns (r: seq<byte>, checksum: word)
    requires |padded| % 4 == 0 && 4 * WordCount(size) <= |padded| && |head| == 8
    requires Written(head, [], size, odata)
    ensures r == head + PackAll(Ciphered(Words(padded, 0, |padded| / 4), 2))
    ensures checksum == Checksum(Words(padded, 0, WordCount(size)))
  {
    ghost var n, total := WordCount(size), |padded| / 4;
    r := odata;
    var dmagic: nat := 0x42474552;
    var sum: nat := 0;
    var offset: nat := 0;
    ghost var m: nat := 0;
    ghost var c: nat := 0;
    ghost var done: seq<word> := [];
    while offset < |padded|
      invariant offset == 4 * m && m <= total
      invariant c == if m < n then m else n
      invariant done == Ciphered(Words(padded, 0, m), 2)
      invariant Summed(Words(padded, 0, c), dmagic, sum)
      invariant Written(head, done, size, r)
    {
      assert offset + 4 <= |padded|;
      var word := Wunpack(Slice(padded, offset, offset + 4)).value;
      assert word == UnpackWord(padded[offset .. offset + 4]);
      ghost var m1 := m + 1;
      r, dmagic, sum, c, done := EncipherWord(offset, word, r, dmagic, sum,
                                              padded, size, head, m, m1, c, done);
      offset := offset + 4;
      m := m1;
    }
    checksum := sum % 0x1_0000_0000;
    WordCountBound(size, m);
    assert m == total && c == n;
    assert |PackAll(done)| >= size;
    assert r == head + PackAll(done);
  }

  // ---------------------------------------------------------------------
  // Properties

  /** os2dump raises exactly for a bad size, and its output fills whole
      0x1000-byte pages. */
  lemma OsDumpPages(idata: seq<byte>)
    ensures OsDump(idata).Failure? <==> !ValidSize(|idata|)
    ensures OsDump(idata).Success? ==> |OsDump(idata).value| % 0x1000 == 0
  {
    if ValidSize(|idata|) {
      PaddedSize(|idata|);
    }
  }

  /** The two header words of a flash portion decipher to the size and the
      checksum they were made from. */
  lemma HeaderWords(size: word, sum: word, rest: seq<byte>, out: seq<byte>)
    requires out == Wpack(DecodeWord(size, 0)) + Wpack(DecodeWord(sum, 1)) + rest
    ensures |out| >= 8
    ensures DecodeWord(UnpackWord(out[0..4]), 0) == size
    ensures DecodeWord(UnpackWord(out[4..8]), 1) == sum
  {
    assert out[0..4] == Wpack(DecodeWord(size, 0)) && out[4..8] == Wpack(DecodeWord(sum, 1));
    UnpackWordWpack(DecodeWord(size, 0));
    UnpackWordWpack(DecodeWord(sum, 1));
    DecodeWordInvolution(size, 0);
    DecodeWordInvolution(sum, 1);
  }

  /** The first `n` ciphered words stored behind an 8-byte header decipher
      to the first `n` words of the padded image. */
  lemma BodyWords(padded: seq<byte>, pre: seq<byte>, out: seq<byte>, n: nat, total: nat)
    requires |pre| == 8 && |padded| == 4 * total && n <= total
    requires out == pre + PackAll(Ciphered(Words(padded, 0, total), 2))
    ensures |out| >= 8 + 4 * n
    ensures Ciphered(Words(out, 8, n), 2) == Words(padded, 0, n)
  {
    var all := Ciphered(Words(padded, 0, total), 2);
    WordsOfPacked(pre, all, n);
    assert all[..n] == Ciphered(Words(padded, 0, total)[..n], 2);
    assert Words(padded, 0, total)[..n] == Words(padded, 0, n);
    CipheredInvolution(Words(padded, 0, n), 2);
  }

  /** The image followed by its filler, cut `k` bytes into the filler. */
  lemma FillerPrefix(idata: seq<byte>, p: nat, k: nat, padded: seq<byte>, hi: nat)
    requires k <= p && padded == idata + Repeat(0xff, p) && hi == |idata| + k
    ensures padded[0..hi] == idata + Repeat(0xff, k)
  {
    assert padded[0..hi] == idata + Repeat(0xff, p)[..k];
  }

  /** A dump whose header and words check out deciphers to its words. */
  lemma OsImageAccepts(out: seq<byte>, size: nat, sum: word, ws: seq<word>)
    requires |out| >= 8 && ValidSize(size) && |out| >= 8 + 4 * WordCount(size)
    requires size == DecodeWord(UnpackWord(out[0..4]), 0)
    requires sum == DecodeWord(UnpackWord(out[4..8]), 1)
    requires ws == Ciphered(Words(out, 8, WordCount(size)), 2) && Checksum(ws) == sum
    ensures OsImage(out) == Success(PackAll(ws))
  {
  }

  /** The header and the first `n` words of a flash portion decipher to
      the size, the checksum and the first `n` words of the padded image. */
  lemma DumpParts(size: word, sum: word, padded: seq<byte>, n: nat, total: nat, out: seq<byte>)
    requires |padded| == 4 * total && n <= total
    requires out == Wpack(DecodeWord(size, 0)) + Wpack(DecodeWord(sum, 1))
                    + PackAll(Ciphered(Words(padded, 0, total), 2))
    ensures |out| >= 8 + 4 * n
    ensures DecodeWord(UnpackWord(out[0..4]), 0) == size
    ensures DecodeWord(UnpackWord(out[4..8]), 1) == sum
    ensures Ciphered(Words(out, 8, n), 2) == Words(padded, 0, n)
  {
    var pre := Wpack(DecodeWord(size, 0)) + Wpack(DecodeWord(sum, 1));
    HeaderWords(size, sum, PackAll(Ciphered(Words(padded, 0, total), 2)), out);
    BodyWords(padded, pre, out, n, total);
  }

  /** The first `n` words of the padded image pack to the image and its
      filler up to a whole word. */
  lemma ImageWords(idata: seq<byte>, padded: seq<byte>, n: nat)
    requires ValidSize(|idata|) && padded == idata + Repeat(0xff, PadLength(|idata|))
    requires n == WordCount(|idata|)
    ensures PackAll(Words(padded, 0, n)) == idata + Repeat(0xff, 4 * n - |idata|)
  {
    PaddedSize(|idata|);
    PackAllWords(padded, 0, n);
    var k, hi := 4 * n - |idata|, 4 * n;
    FillerPrefix(idata, PadLength(|idata|), k, padded, hi);
  }

  /** The flash portion os2dump makes deciphers to the image and its filler
      up to a whole word. */
  lemma OsImageOfDump(idata: seq<byte>, padded: seq<byte>, sum: word, out: seq<byte>)
    requires ValidSize(|idata|) && padded == idata + Repeat(0xff, PadLength(|idata|))
    requires sum == Checksum(Words(padded, 0, WordCount(|idata|)))
    requires out == Wpack(DecodeWord(|idata|, 0)) + Wpack(DecodeWord(sum, 1))
                    + PackAll(Ciphered(Words(padded, 0, |padded| / 4), 2))
    ensures OsImage(out) == Success(idata + Repeat(0xff, 4 * WordCount(|idata|) - |idata|))
  {
    var size := |idata|;
    var n, total := WordCount(size), |padded| / 4;
    PaddedWords(size, |padded|, total);
    DumpParts(size, sum, padded, n, total, out);
    OsImageAccepts(out, size, sum, Words(padded, 0, n));
    ImageWords(idata, padded, n);
  }

  /** Converting an image to a flash portion and back gives the image
      extended with 0xff to whole words. */
  lemma OsImageInvertsOsDump(idata: seq<byte>)
    requires ValidSize(|idata|)
    ensures OsImage(OsDump(idata).value)
         == Success(idata + Repeat(0xff, 4 * WordCount(|idata|) - |idata|))
  {
    var padded := idata + Repeat(0xff, PadLength(|idata|));
    var sum := Checksum(Words(padded, 0, WordCount(|idata|)));
    OsDumpValue(idata, padded, sum);
    OsImageOfDump(idata, padded, sum, OsDump(idata).value);
  }
}
