/** Values shared by every part of the model: bytes and 32-bit words as
    bounded integers, bitwise exclusive-or on them, the failure type that
    stands for the Python exceptions, and Python's clamping slice. */
module Common {

  /** An 8-bit value, as every element of the scripts' byte lists is. */
  type byte = b: int | 0 <= b < 0x100

  /** A 32-bit value, as produced by unpacking four little-endian bytes. */
  type word = w: int | 0 <= w < 0x1_0000_0000

  datatype Option<+T> = None | Some(value: T)

  /** The causes of the exceptions the scripts raise. */
  datatype Error =
    | BlobLengthNotMultipleOf8   // syx_implode
    | DataLengthNotMultipleOf7   // syx_explode
    | OddLength                  // syx_decode_write
    | WrongPacketLength          // syx_parse_packet: payload is not 296 bytes
    | AddressJump                // syx_parse_packet: page is not lastaddr + 0x100
    | PageChecksumError          // syx_parse_packet
    | MixedPacketTypes           // syx2dump: both 0x34 and 0x74 packets
    | IndexOutOfRange            // a Python IndexError
    | BaseNotAligned             // dump2syx: base & 0xfff != 0
    | BaseTooLow                 // dump2syx: base < 0x2000
    | ShortWord                  // wunpack of fewer than 4 bytes
    | BadSize                    // dump2os / os2dump size field
    | ImageChecksumMismatch      // dump2os
    | Timeout                    // midi_check_sysex: no message
    | UnexpectedManufacturer     // midi_check_sysex
    | UnexpectedCommand          // midi_check_sysex
    | DelimiterMissing           // list.index raising ValueError in flash_upload
    | StartNotAligned            // flash_get: addr & 0xff != 0
    | CountNotAligned            // flash_get: count & 0xff != 0
    | ByteOutOfRange             // chr() of a value above 0xff
    | BadNumber                  // int() of a malformed decimal
    | EndOfFile                  // ord() of an empty read

  datatype Result<+T> = Success(value: T) | Failure(error: Error)

  /** `2^n`. */
  function Pow2(n: nat): (r: nat)
    ensures r >= 1
  {
    if n == 0 then 1 else 2 * Pow2(n - 1)
  }

  /** Python's `^` on non-negative integers, bit by bit from the bottom. */
  function Xor(a: nat, b: nat): nat
    decreases a + b
  {
    if a == 0 && b == 0 then 0
    else 2 * Xor(a / 2, b / 2) + (a % 2 + b % 2) % 2
  }

  lemma {:induction false} XorBound(a: nat, b: nat, n: nat)
    requires a < Pow2(n) && b < Pow2(n)
    ensures Xor(a, b) < Pow2(n)
    decreases n
  {
    if a == 0 && b == 0 {
    } else {
      assert n > 0;
      XorBound(a / 2, b / 2, n - 1);
    }
  }

  /** Dropping the lowest bit of `2 * a + h`. */
  lemma Halve(a: int, h: int)
    requires 0 <= h < 2
    ensures (2 * a + h) / 2 == a && (2 * a + h) % 2 == h
  {
  }

  lemma ParityCancel(u: int, v: int)
    requires 0 <= u < 2 && 0 <= v < 2
    ensures ((u + v) % 2 + v) % 2 == u
  {
  }

  lemma XorUnfold(a: nat, b: nat)
    ensures Xor(a, b) == 2 * Xor(a / 2, b / 2) + (a % 2 + b % 2) % 2
  {
  }

  lemma {:induction false} XorInvolution(a: nat, k: nat)
    ensures Xor(Xor(a, k), k) == a
    decreases a + k
  {
    if a != 0 || k != 0 {
      var a2, ab, k2, kb := a / 2, a % 2, k / 2, k % 2;
      var x := Xor(a, k);
      var hi := Xor(a2, k2);
      var bit := (ab + kb) % 2;
      XorInvolution(a2, k2);
      XorHalves(a, a2, ab, k);
      XorHalves(x, hi, bit, k);
      ParityCancel(ab, kb);
    }
  }

  /** Exclusive-or of `2 * h + b` with `l`, one bit at a time. */
  lemma XorHalves(x: nat, h: nat, b: nat, l: nat)
    requires b < 2 && x == 2 * h + b
    ensures Xor(x, l) == 2 * Xor(h, l / 2) + (b + l % 2) % 2
  {
    Halve(h, b);
    XorUnfold(x, l);
  }

  /** The two keys of a double exclusive-or can be applied in either order. */
  lemma {:induction false} XorSwap(a: nat, k: nat, l: nat)
    ensures Xor(Xor(a, k), l) == Xor(Xor(a, l), k)
    decreases a + k + l
  {
    if a != 0 || k != 0 || l != 0 {
      var a2, k2, l2 := a / 2, k / 2, l / 2;
      var x, y := Xor(Xor(a, k), l), Xor(Xor(a, l), k);
      assert x / 2 == Xor(Xor(a2, k2), l2) by { XorHigh(Xor(a, k), l); XorHigh(a, k); }
      assert y / 2 == Xor(Xor(a2, l2), k2) by { XorHigh(Xor(a, l), k); XorHigh(a, l); }
      assert x / 2 == y / 2 by { XorSwap(a2, k2, l2); }
      assert x % 2 == y % 2 by { XorSwapLow(a, k, l); }
      Halve(x / 2, x % 2);
      Halve(y / 2, y % 2);
    }
  }

  /** The halves of an exclusive-or are the exclusive-or of the halves. */
  lemma XorHigh(a: nat, b: nat)
    ensures Xor(a, b) / 2 == Xor(a / 2, b / 2)
  {
    XorUnfold(a, b);
    Halve(Xor(a / 2, b / 2), (a % 2 + b % 2) % 2);
  }

  /** The lowest bits agree whichever key of a double exclusive-or comes
      first. */
  lemma XorSwapLow(a: nat, k: nat, l: nat)
    ensures Xor(Xor(a, k), l) % 2 == Xor(Xor(a, l), k) % 2
  {
    XorLowTwice(a, k, l);
    XorLowTwice(a, l, k);
  }

  /** The lowest bit of a double exclusive-or. */
  lemma XorLowTwice(a: nat, k: nat, l: nat)
    ensures Xor(Xor(a, k), l) % 2 == (a % 2 + k % 2 + l % 2) % 2
  {
    XorLow(Xor(a, k), l);
    XorLow(a, k);
    ParityCarry(a % 2 + k % 2, l % 2);
  }

  /** Reducing the first summand modulo 2 first does not change the parity. */
  lemma ParityCarry(x: nat, y: nat)
    ensures (x % 2 + y) % 2 == (x + y) % 2
  {
  }

  /** The lowest bit of an exclusive-or is the sum of the lowest bits. */
  lemma XorLow(a: nat, b: nat)
    ensures Xor(a, b) % 2 == (a % 2 + b % 2) % 2
  {
    XorUnfold(a, b);
    Halve(Xor(a / 2, b / 2), (a % 2 + b % 2) % 2);
  }

  /** Exclusive-or of two bytes is a byte. */
  function Xor8(a: byte, b: byte): (r: byte)
  {
    XorBound(a, b, 8);
    Xor(a, b)
  }

  /** Exclusive-or of two words is a word. */
  function Xor32(a: word, b: word): (r: word)
  {
    assert Pow2(32) == 0x1_0000_0000 by { Pow2Value32(); }
    XorBound(a, b, 32);
    Xor(a, b)
  }

  lemma Pow2Value32()
    ensures Pow2(8) == 0x100 && Pow2(16) == 0x1_0000 && Pow2(32) == 0x1_0000_0000
  {
    assert Pow2(4) == 16;
    assert Pow2(8) == 256;
    assert Pow2(12) == 0x1000;
    assert Pow2(16) == 0x1_0000;
    assert Pow2(20) == 0x10_0000;
    assert Pow2(24) == 0x100_0000;
    assert Pow2(28) == 0x1000_0000;
  }

  /** `s[lo:hi]` for non-negative bounds: both ends clamp to the length. */
  function Slice<T>(s: seq<T>, lo: nat, hi: nat): (r: seq<T>)
    ensures |r| == if lo <= hi && lo <= |s| then (if hi <= |s| then hi else |s|) - lo else 0
    ensures lo <= hi <= |s| ==> r == s[lo..hi]
  {
    var h := if hi <= |s| then hi else |s|;
    if lo <= h then s[lo..h] else []
  }

  /** `s[lo:hi] = t` with `lo <= len(s)`: the (clamped) slice is replaced
      by `t`, so the list grows when `t` is longer than the slice. */
  function SliceAssign<T>(s: seq<T>, lo: nat, hi: nat, t: seq<T>): seq<T>
    requires lo <= |s|
  {
    var h := if hi <= lo then lo else if hi <= |s| then hi else |s|;
    s[..lo] + t + s[h..]
  }

  /** Assigning `t` to the slice that starts where `a` ends replaces the
      first `|t|` elements after `a`, or all of them when there are fewer. */
  lemma SliceAssignEnd<T>(a: seq<T>, z: seq<T>, t: seq<T>)
    ensures SliceAssign(a + z, |a|, |a| + |t|, t) == a + t + (if |t| <= |z| then z[|t|..] else [])
  {
    var s := a + z;
    assert s[..|a|] == a;
    if |t| <= |z| {
      assert s[|a| + |t|..] == z[|t|..];
    }
  }

  /** A prefix extended by the slice that follows it. */
  lemma AppendSlices<T>(p: seq<T>, s: seq<T>, a: nat, b: nat)
    requires a <= b <= |s|
    ensures p + s[..a] + s[a..b] == p + s[..b]
  {
    assert s[..a] + s[a..b] == s[..b];
  }

  /** A sequence of `n` copies of `x`, as Python's `[x] * n`. */
  function Repeat<T>(x: T, n: nat): (r: seq<T>)
    ensures |r| == n
    ensures forall i :: 0 <= i < n ==> r[i] == x
  {
    seq(n, _ => x)
  }

  /** A prefix of what follows position `k`, put after what comes before
      `k`, is a prefix of the whole sequence. */
  lemma PrefixAfter<T>(s: seq<T>, k: nat, t: seq<T>)
    requires k <= |s| && t <= s[k..]
    ensures s[..k] + t <= s
    ensures t == s[k..] ==> s[..k] + t == s
  {
    assert s == s[..k] + s[k..];
  }

  /** A sequence is what comes before position `k`, the element there and
      what follows it. */
  lemma AroundIndex<T>(s: seq<T>, k: nat)
    requires k < |s|
    ensures s == s[..k] + [s[k]] + s[k + 1..]
  {
  }

  /** Concatenation is associative. */
  lemma AppendAssoc<T>(a: seq<T>, b: seq<T>, c: seq<T>)
    ensures a + (b + c) == a + b + c
  {
  }

  /** The concatenation of a sequence of sequences. */
  function Flatten<T>(ss: seq<seq<T>>): seq<T>
  {
    if ss == [] then [] else Flatten(ss[..|ss| - 1]) + ss[|ss| - 1]
  }

  /** Flattening a sequence of chunks with one more chunk at its end. */
  lemma FlattenSnoc<T>(init: seq<seq<T>>, last: seq<T>)
    ensures Flatten(init + [last]) == Flatten(init) + last
  {
    var ss := init + [last];
    assert ss[..|ss| - 1] == init;
  }

  /** Flattening distributes over concatenation. */
  lemma {:induction false} FlattenAppend<T>(a: seq<seq<T>>, b: seq<seq<T>>)
    ensures Flatten(a + b) == Flatten(a) + Flatten(b)
    decreases |b|
  {
    if b == [] {
      assert a + b == a;
    } else {
      var init, last := b[..|b| - 1], b[|b| - 1];
      assert b == init + [last];
      assert a + b == (a + init) + [last];
      FlattenSnoc(a + init, last);
      FlattenSnoc(init, last);
      FlattenAppend(a, init);
    }
  }
}
