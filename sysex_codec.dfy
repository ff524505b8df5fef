/** The SysEx page codec of bcfwconvert.py: repacking between 8-bit bytes
    and the 7-bit bytes a SysEx payload may carry, the transport cipher with
    its 13-byte key, the page checksum, and the write cipher driven by a
    16-bit shift register. Each operation is specified by a closed-form
    function; the methods follow the scripts' loops and are proved to
    compute those functions. */
module SysexCodec {
  import opened Common

  /** Bit `k` of `x`, as `x & (1 << k) != 0`. */
  function Bit(x: nat, k: nat): bool
  {
    if k == 0 then x % 2 == 1 else Bit(x / 2, k - 1)
  }

  /** `x | 0x80` on a byte. */
  function SetHigh(x: byte): (r: byte)
    ensures r >= 0x80 && r % 0x80 == x % 0x80
  {
    if x >= 0x80 then x else x + 0x80
  }

  // ---------------------------------------------------------------------
  // 8-to-7 and 7-to-8 repacking

  /** Byte `m` of group `g` after syx_implode: the group's byte `m`, with
      the high bit set when bit `6 - m` of the group's 8th byte is set. */
  function ImplodedByte(data: seq<byte>, g: nat, m: nat): byte
    requires 8 * g + 7 < |data| && m < 7
  {
    if Bit(data[8 * g + 7], 6 - m) then SetHigh(data[8 * g + m]) else data[8 * g + m]
  }

  /** One group of syx_implode's output: the first 7 of 8 input bytes,
      with high bits taken from the 8th. */
  function ImplodedGroup(grp: seq<byte>): (r: seq<byte>)
    requires |grp| == 8
    ensures |r| == 7
  {
    seq(7, k requires 0 <= k < 7 => ImplodedByte(grp, 0, k))
  }

  /** The 7-bit to 8-bit direction (syx_implode), group by group. */
  function Imploded(data: seq<byte>): (r: seq<byte>)
    requires |data| % 8 == 0
    ensures 8 * |r| == 7 * |data|
    decreases |data|
  {
    if data == [] then [] else ImplodedGroup(data[..8]) + Imploded(data[8..])
  }

  lemma {:induction false} ImplodedAt(data: seq<byte>, g: nat, m: nat)
    requires |data| % 8 == 0 && 8 * g + 8 <= |data| && m < 7
    ensures 7 * g + m < |Imploded(data)| && Imploded(data)[7 * g + m] == ImplodedByte(data, g, m)
    decreases g
  {
    if g == 0 {
      var grp := data[..8];
      assert grp[7] == data[7] && grp[m] == data[m];
    } else {
      var rest := data[8..];
      ImplodedAt(rest, g - 1, m);
      assert rest[8 * (g - 1) + 7] == data[8 * g + 7];
      assert rest[8 * (g - 1) + m] == data[8 * g + m];
    }
  }

  /** The flag byte of a group: the high bits of its bytes, first byte
      most significant. */
  function HighFlags(grp: seq<byte>): nat
  {
    if grp == [] then 0
    else 2 * HighFlags(grp[..|grp| - 1]) + (if grp[|grp| - 1] >= 0x80 then 1 else 0)
  }

  lemma {:induction false} HighFlagsBound(grp: seq<byte>)
    ensures HighFlags(grp) < Pow2(|grp|)
  {
    if grp != [] {
      HighFlagsBound(grp[..|grp| - 1]);
    }
  }

  /** Bit `n - 1 - m` of the flag byte of an `n`-byte group is the high bit
      of its byte `m`. */
  lemma {:induction false} HighFlagsBit(grp: seq<byte>, m: nat)
    requires m < |grp|
    ensures Bit(HighFlags(grp), |grp| - 1 - m) == (grp[m] >= 0x80)
  {
    var n := |grp|;
    var init := grp[..n - 1];
    var h := if grp[n - 1] >= 0x80 then 1 else 0;
    var x := HighFlags(grp);
    assert x == 2 * HighFlags(init) + h;
    Halve(HighFlags(init), h);
    if m == n - 1 {
      assert Bit(x, 0) == (x % 2 == 1);
    } else {
      assert Bit(x, n - 1 - m) == Bit(x / 2, n - 2 - m);
      assert init[m] == grp[m];
      HighFlagsBit(init, m);
    }
  }

  /** The flag byte of a 7-byte group fits in 7 bits. */
  function FlagByte(grp: seq<byte>): (r: byte)
    requires |grp| == 7
    ensures r < 0x80
  {
    HighFlagsBound(grp);
    assert Pow2(7) == 0x80;
    HighFlags(grp)
  }

  /** Byte `m` of group `g` after syx_explode: the low 7 bits of the
      group's byte `m`, or for `m == 7` the flag byte of the group. */
  function ExplodedByte(data: seq<byte>, g: nat, m: nat): byte
    requires 7 * g + 7 <= |data| && m < 8
  {
    if m < 7 then data[7 * g + m] % 0x80 else FlagByte(data[7 * g .. 7 * g + 7])
  }

  /** One group of syx_explode's output: the low 7 bits of the 7 input
      bytes, then their flag byte. */
  function ExplodedGroup(grp: seq<byte>): (r: seq<byte>)
    requires |grp| == 7
    ensures |r| == 8
  {
    seq(7, k requires 0 <= k < 7 => grp[k] % 0x80) + [FlagByte(grp)]
  }

  /** The 8-bit to 7-bit direction (syx_explode), group by group. */
  function Exploded(data: seq<byte>): (r: seq<byte>)
    requires |data| % 7 == 0
    ensures 7 * |r| == 8 * |data|
    decreases |data|
  {
    if data == [] then [] else ExplodedGroup(data[..7]) + Exploded(data[7..])
  }

  lemma {:induction false} ExplodedAt(data: seq<byte>, g: nat, m: nat)
    requires |data| % 7 == 0 && 7 * g + 7 <= |data| && m < 8
    ensures 8 * g + m < |Exploded(data)| && Exploded(data)[8 * g + m] == ExplodedByte(data, g, m)
    decreases g
  {
    if g == 0 {
      assert data[0 .. 7] == data[..7];
    } else {
      var rest := data[7..];
      ExplodedAt(rest, g - 1, m);
      assert rest[7 * (g - 1) .. 7 * (g - 1) + 7] == data[7 * g .. 7 * g + 7];
      if m < 7 {
        assert rest[7 * (g - 1) + m] == data[7 * g + m];
      }
    }
  }

  /** Position `p` of a sequence of groups of 8 lies in a whole group. */
  lemma GroupFits8(p: nat, len: nat)
    requires len % 8 == 0 && p < len
    ensures p == 8 * (p / 8) + p % 8 && p % 8 < 8 && 8 * (p / 8) + 8 <= len
  {
  }

  /** Every byte syx_explode produces is a legal SysEx data byte. */
  lemma ExplodedIsSevenBit(data: seq<byte>)
    requires |data| % 7 == 0
    ensures forall p :: 0 <= p < |Exploded(data)| ==> Exploded(data)[p] < 0x80
  {
    var e := Exploded(data);
    assert |e| % 8 == 0;
    forall p | 0 <= p < |e|
      ensures e[p] < 0x80
    {
      GroupFits8(p, |e|);
      ExplodedAt(data, p / 8, p % 8);
    }
  }

  /** `x & 0x7f` clears exactly the high bit. */
  lemma LowBits(x: byte)
    ensures x % 0x80 == if x >= 0x80 then x - 0x80 else x
  {
  }

  /** Within one group, imploding undoes exploding. */
  lemma GroupImplodeExplode(grp: seq<byte>)
    requires |grp| == 7
    ensures ImplodedGroup(ExplodedGroup(grp)) == grp
  {
    var e := ExplodedGroup(grp);
    forall k | 0 <= k < 7
      ensures ImplodedGroup(e)[k] == grp[k]
    {
      assert e[7] == HighFlags(grp);
      assert e[k] == grp[k] % 0x80;
      HighFlagsBit(grp, k);
      LowBits(grp[k]);
    }
  }

  /** Imploding undoes exploding. */
  lemma {:induction false} ImplodeExplode(x: seq<byte>)
    requires |x| % 7 == 0
    ensures |Exploded(x)| % 8 == 0 && Imploded(Exploded(x)) == x
    decreases |x|
  {
    if x != [] {
      var head, rest := ExplodedGroup(x[..7]), Exploded(x[7..]);
      var e := head + rest;
      assert Exploded(x) == e;
      assert e[..8] == head && e[8..] == rest;
      ImplodeExplode(x[7..]);
      GroupImplodeExplode(x[..7]);
      assert Imploded(e) == ImplodedGroup(head) + Imploded(rest);
      assert x == x[..7] + x[7..];
    }
  }

  /** Within one group of 7-bit bytes, exploding undoes imploding. */
  lemma GroupExplodeImplode(grp: seq<byte>)
    requires |grp| == 8
    requires forall k :: 0 <= k < 8 ==> grp[k] < 0x80
    ensures ExplodedGroup(ImplodedGroup(grp)) == grp
  {
    var d := ImplodedGroup(grp);
    var e := ExplodedGroup(d);
    forall k | 0 <= k < 7
      ensures e[k] == grp[k]
    {
      LowBits(d[k]);
    }
    forall k | 0 <= k < 7
      ensures d[k] >= 0x80 <==> Bit(grp[7], 6 - k)
    {
    }
    FlagsDetermineByte(d, grp[7]);
  }

  /** Exploding undoes imploding on legal 7-bit input. */
  lemma {:induction false} ExplodeImplode(y: seq<byte>)
    requires |y| % 8 == 0
    requires forall p :: 0 <= p < |y| ==> y[p] < 0x80
    ensures |Imploded(y)| % 7 == 0 && Exploded(Imploded(y)) == y
    decreases |y|
  {
    if y != [] {
      var head, rest := ImplodedGroup(y[..8]), Imploded(y[8..]);
      var d := head + rest;
      assert Imploded(y) == d;
      assert d[..7] == head && d[7..] == rest;
      ExplodeImplode(y[8..]);
      GroupExplodeImplode(y[..8]);
      assert Exploded(d) == ExplodedGroup(head) + Exploded(rest);
      assert y == y[..8] + y[8..];
    }
  }

  /** A flag byte is determined by the high bits of its group. */
  lemma FlagsDetermineByte(grp: seq<byte>, f: byte)
    requires |grp| == 7 && f < 0x80
    requires forall k :: 0 <= k < 7 ==> (grp[k] >= 0x80 <==> Bit(f, 6 - k))
    ensures FlagByte(grp) == f
  {
    var h := HighFlags(grp);
    HighFlagsBound(grp);
    assert Pow2(7) == 0x80;
    forall k | 0 <= k < 7
      ensures Bit(h, k) == Bit(f, k)
    {
      HighFlagsBit(grp, 6 - k);
    }
    SameBitsSameValue(h, f, 7);
  }

  lemma {:induction false} SameBitsSameValue(a: nat, b: nat, n: nat)
    requires a < Pow2(n) && b < Pow2(n)
    requires forall k :: 0 <= k < n ==> Bit(a, k) == Bit(b, k)
    ensures a == b
  {
    if n > 0 {
      Halve(a / 2, a % 2);
      Halve(b / 2, b % 2);
      forall k | 0 <= k < n - 1
        ensures Bit(a / 2, k) == Bit(b / 2, k)
      {
        assert Bit(a, k + 1) == Bit(b, k + 1);
      }
      SameBitsSameValue(a / 2, b / 2, n - 1);
      assert Bit(a, 0) == Bit(b, 0);
    }
  }

  /** `i` is byte `t` of group `g` in a stream cut into groups of 8. */
  lemma GroupOffset(i: int, g: nat, t: nat)
    requires i == 8 * g + t && t < 8
    ensures i % 8 == t
  {
  }

  lemma ImplodedLength(data: seq<byte>)
    requires |data| % 8 == 0
    ensures |Imploded(data)| == |data| / 8 * 7
  {
  }

  /** Input byte `i`, byte `t < 7` of group `g`, lands at output position
      `j` unchanged until the group's 8th byte arrives; that 8th byte lies
      inside the input. */
  lemma ImplodeCopyAt(data: seq<byte>, g: nat, t: nat, i: nat, j: nat)
    requires |data| % 8 == 0 && i == 8 * g + t && j == 7 * g + t && t < 8 && i < |data|
    ensures 8 * g + 8 <= |data|
    ensures t < 7 ==> j < |Imploded(data)|
  {
  }

  /** Bit `k` of the group's 8th byte `data[i]` decides the high bit of
      output position `q`. */
  lemma ImplodeBitAt(data: seq<byte>, g: nat, k: nat, i: nat, q: nat)
    requires |data| % 8 == 0 && i == 8 * g + 7 && i < |data| && k < 7 && q == 7 * g + 6 - k
    ensures q < |Imploded(data)| && q + g < |data|
    ensures Imploded(data)[q] == if Bit(data[i], k) then SetHigh(data[q + g]) else data[q + g]
  {
    ImplodedAt(data, g, 6 - k);
  }

  /** The inner loop of syx_implode: bit `k` of `flags` sets the high bit
      of `out[j - k - 1]`, for `k` from 0 to 6. */
  method OrHighBits(out: array<byte>, j: nat, flags: byte)
    requires 7 <= j <= out.Length
    modifies out
    ensures forall p :: 0 <= p < out.Length ==>
      out[p] == if j - 7 <= p < j && Bit(flags, j - 1 - p) then SetHigh(old(out[p])) else old(out[p])
  {
    for k := 0 to 7
      invariant forall p :: 0 <= p < out.Length ==>
        out[p] == if j - k <= p < j && Bit(flags, j - 1 - p) then SetHigh(old(out[p])) else old(out[p])
    {
      if Bit(flags, k) {
        out[j - k - 1] := SetHigh(out[j - k - 1]);
      }
    }
  }

  /** syx_implode: fills a preallocated buffer with the data bytes, then
      ORs the high bits of each group in when its 8th byte arrives. */
  method Implode(data: seq<byte>) returns (r: Result<seq<byte>>)
    ensures |data| % 8 != 0 ==> r == Failure(BlobLengthNotMultipleOf8)
    ensures |data| % 8 == 0 ==> r == Success(Imploded(data))
  {
    if |data| % 8 != 0 {
      return Failure(BlobLengthNotMultipleOf8);
    }
    var out := new byte[|data| / 8 * 7](_ => 0);
    ghost var expected := Imploded(data);
    ImplodedLength(data);
    var j := 0;
    ghost var g, t := 0, 0;
    for i := 0 to |data|
      invariant i == 8 * g + t && t < 8 && j == 7 * g + t
      invariant forall p :: 0 <= p < 7 * g ==> out[p] == expected[p]
      invariant forall p :: 7 * g <= p < j ==> out[p] == data[p + g]
    {
      GroupOffset(i, g, t);
      ImplodeCopyAt(data, g, t, i, j);
      if i % 8 == 7 {
        OrHighBits(out, j, data[i]);
        forall p | 7 * g <= p < j
          ensures out[p] == expected[p]
        {
          ImplodeBitAt(data, g, j - 1 - p, i, p);
        }
        g, t := g + 1, 0;
      } else {
        out[j] := data[i];
        j := j + 1;
        t := t + 1;
      }
    }
    assert out[..] == expected;
    return Success(out[..]);
  }

  /** The flag byte as syx_explode accumulates it over the first `n`
      bytes of the group starting at `lo`: the high bit of byte `k` sets
      bit `6 - k`. */
  function PartialFlags(data: seq<byte>, lo: nat, n: nat): nat
    requires lo + n <= |data| && n <= 7
  {
    if n == 0 then 0
    else PartialFlags(data, lo, n - 1) + (if data[lo + n - 1] >= 0x80 then Pow2(7 - n) else 0)
  }

  /** Accumulating flags bit by bit from the top agrees with the Horner
      form, shifted by the bits still to come. */
  lemma {:induction false} PartialFlagsHorner(data: seq<byte>, lo: nat, n: nat)
    requires lo + n <= |data| && n <= 7
    ensures PartialFlags(data, lo, n) == HighFlags(data[lo .. lo + n]) * Pow2(7 - n)
  {
    if n > 0 {
      PartialFlagsHorner(data, lo, n - 1);
      var grp := data[lo .. lo + n];
      assert grp[..n - 1] == data[lo .. lo + n - 1];
      FlagsStep(grp, n - 1);
    }
  }

  /** One step of the flag accumulation: adding the `t`-th byte's flag at
      bit `6 - t` extends the Horner form by one byte. */
  lemma FlagsStep(grp: seq<byte>, t: nat)
    requires |grp| == t + 1 && t < 7
    ensures HighFlags(grp) * Pow2(6 - t) ==
            HighFlags(grp[..t]) * Pow2(7 - t) + (if grp[t] >= 0x80 then Pow2(6 - t) else 0)
  {
    var P := Pow2(6 - t);
    assert Pow2(7 - t) == 2 * P;
    var h := if grp[t] >= 0x80 then 1 else 0;
    var a := HighFlags(grp[..t]);
    assert HighFlags(grp) == 2 * a + h;
    Distribute(a, h, P);
  }

  lemma Distribute(a: int, h: int, p: int)
    ensures (2 * a + h) * p == a * (2 * p) + h * p
  {
  }

  lemma ExplodedLength(data: seq<byte>)
    requires |data| % 7 == 0
    ensures |Exploded(data)| == |data| / 7 * 8
  {
  }

  /** One step of syx_explode's accumulation: input byte `i`, written at
      output position `j`, contributes bit `6 - j % 8`. */
  lemma FlagsAdvance(data: seq<byte>, g: nat, t: nat, i: nat, j: nat)
    requires i == 7 * g + t && j == 8 * g + t && t < 7 && i < |data|
    ensures j % 8 == t
    ensures PartialFlags(data, 7 * g, t + 1) ==
      PartialFlags(data, 7 * g, t) + if data[i] >= 0x80 then Pow2(6 - j % 8) else 0
  {
    GroupOffset(j, g, t);
  }

  /** Byte `m < 7` of output group `g` is the low 7 bits of input byte
      `7 * g + m`. */
  lemma ExplodedLowAt(data: seq<byte>, g: nat, m: nat, i: nat, j: nat)
    requires |data| % 7 == 0 && m < 7
    requires i == 7 * g + m && j == 8 * g + m && i < |data|
    ensures j < |Exploded(data)| && Exploded(data)[j] == data[i] % 0x80
  {
    assert 7 * g + 7 <= |data|;
    ExplodedAt(data, g, m);
  }

  /** Byte 7 of output group `g` is the flag byte as accumulated. */
  lemma ExplodedFlagAt(data: seq<byte>, g: nat, i: nat, j: nat)
    requires |data| % 7 == 0 && i == 7 * g + 6 && i < |data| && j == 8 * g + 7
    ensures j < |Exploded(data)| && Exploded(data)[j] == PartialFlags(data, 7 * g, 7)
    ensures PartialFlags(data, 7 * g, 7) < 0x80
  {
    ExplodedAt(data, g, 7);
    PartialFlagsHorner(data, 7 * g, 7);
  }

  /** `out[j] = v`, where `v` is the byte expected there after the `j`
      bytes already written as expected. */
  method Put(out: array<byte>, j: nat, v: byte, ghost expected: seq<byte>)
    modifies out
    requires j < out.Length && j < |expected| && v == expected[j]
    requires forall p :: 0 <= p < j ==> out[p] == expected[p]
    ensures forall p :: 0 <= p <= j ==> out[p] == expected[p]
    ensures out[..] == old(out[..])[j := v]
  {
    out[j] := v;
  }

  /** syx_explode: copies the low 7 bits of each byte and, after every 7th,
      writes the flag byte collected in `highbits`. */
  method Explode(data: seq<byte>) returns (r: Result<seq<byte>>)
    ensures |data| % 7 != 0 ==> r == Failure(DataLengthNotMultipleOf7)
    ensures |data| % 7 == 0 ==> r == Success(Exploded(data))
  {
    if |data| % 7 != 0 {
      return Failure(DataLengthNotMultipleOf7);
    }
    var j := 0;
    var out := new byte[|data| / 7 * 8](_ => 0);
    ghost var expected := Exploded(data);
    ExplodedLength(data);
    var highbits: nat := 0;
    ghost var g, t := 0, 0;
    for i := 0 to |data|
      invariant i == 7 * g + t && t < 7 && j == 8 * g + t
      invariant highbits == PartialFlags(data, 7 * g, t)
      invariant forall p :: 0 <= p < j ==> out[p] == expected[p]
    {
      var b := data[i];
      GroupOffset(j, g, t);
      ExplodedLowAt(data, g, t, i, j);
      FlagsAdvance(data, g, t, i, j);
      if b >= 0x80 {
        // bit 6 - t of highbits is still clear, so `|=` adds it
        highbits := highbits + Pow2(6 - j % 8);
      }
      Put(out, j, b % 0x80, expected);
      j := j + 1;
      GroupOffset(j, g, t + 1);
      if j % 8 == 7 {
        ExplodedFlagAt(data, g, i, j);
        Put(out, j, highbits, expected);
        j := j + 1;
        highbits := 0;
        g, t := g + 1, 0;
      } else {
        t := t + 1;
      }
    }
    assert out[..] == expected;
    return Success(out[..]);
  }

  // ---------------------------------------------------------------------
  // Transport cipher

  /** The 13-byte key of syx_decode. */
  const TransportKey: seq<byte> :=
    [0x54, 0x5a, 0x27, 0x30, 0x33, 0x42, 0x43, 0x4f, 0x4e, 0x54, 0x52, 0x4f, 0x4c]

  /** syx_decode: byte `i` is XORed with key byte `i mod 13`. */
  function Transported(data: seq<byte>): (r: seq<byte>)
    ensures |r| == |data|
  {
    seq(|data|, i requires 0 <= i < |data| => Xor8(data[i], TransportKey[i % 13]))
  }

  /** The transport cipher is its own inverse. */
  lemma TransportInvolution(data: seq<byte>)
    ensures Transported(Transported(data)) == data
  {
    forall i | 0 <= i < |data|
      ensures Transported(Transported(data))[i] == data[i]
    {
      XorInvolution(data[i], TransportKey[i % 13]);
    }
  }

  /** syx_decode, filling a preallocated buffer. */
  method TransportDecode(data: seq<byte>) returns (r: seq<byte>)
    ensures r == Transported(data)
  {
    var out := new byte[|data|](_ => 0);
    for i := 0 to |data|
      invariant forall k :: 0 <= k < i ==> out[k] == Transported(data)[k]
    {
      out[i] := Xor8(data[i], TransportKey[i % |TransportKey|]);
    }
    return out[..];
  }

  // ---------------------------------------------------------------------
  // Page checksum

  /** Round `i` of syx_checksum_update: when bit `i` of the byte equals bit
      0 of the checksum, XOR 0x19 in; then rotate right by one within 8
      bits (bit 0 moves through bit 8 to bit 7). */
  function ChecksumRound(b: byte, c: byte, i: nat): (r: byte)
  {
    var c1 := if Bit(b, i) == (c % 2 == 1) then Xor8(c, 0x19) else c;
    (if c1 % 2 == 1 then c1 + 0x100 else c1) / 2
  }

  /** The checksum after the first `n` rounds for byte `b`. */
  function ChecksumRounds(b: byte, c: byte, n: nat): byte
  {
    if n == 0 then c else ChecksumRound(b, ChecksumRounds(b, c, n - 1), n - 1)
  }

  /** The checksum of a page: syx_checksum_update folded over its bytes
      from 0. */
  function PageChecksum(data: seq<byte>): byte
  {
    if data == [] then 0
    else ChecksumRounds(data[|data| - 1], PageChecksum(data[..|data| - 1]), 8)
  }

  /** syx_checksum_update: eight rounds, each for one bit of the byte. A
      checksum below 0x100 stays below 0x100. */
  method ChecksumUpdate(b: byte, checksum: byte) returns (r: byte)
    ensures r == ChecksumRounds(b, checksum, 8)
  {
    r := checksum;
    for i := 0 to 8
      invariant r == ChecksumRounds(b, checksum, i)
    {
      if Bit(b, i) == (r % 2 == 1) {
        r := Xor8(r, 0x19);
      }
      var c: nat := r;
      if c % 2 == 1 {
        c := c + 0x100;
      }
      r := c / 2;
    }
  }

  /** The checksum loop of syx_parse_packet and dump2syx. */
  method ComputePageChecksum(data: seq<byte>) returns (checksum: byte)
    ensures checksum == PageChecksum(data)
  {
    checksum := 0;
    for i := 0 to |data|
      invariant checksum == PageChecksum(data[..i])
    {
      assert data[..i + 1][..i] == data[..i];
      checksum := ChecksumUpdate(data[i], checksum);
    }
    assert data[..|data|] == data;
  }

  // ---------------------------------------------------------------------
  // Write cipher

  /** The seed syx_decode_write starts from: 0 stands for 0x545A. */
  function WriteSeed(seed: nat): nat
  {
    if seed == 0 then 0x545a else seed
  }

  /** One step of the shift register: XOR 0x8005 in when the low bit is
      set, then shift right by one. */
  function RegisterStep(r: nat): nat
  {
    (if r % 2 == 1 then Xor(r, 0x8005) else r) / 2
  }

  /** The register after `n` steps from the seed. */
  function Register(seed: nat, n: nat): nat
  {
    if n == 0 then WriteSeed(seed) else RegisterStep(Register(seed, n - 1))
  }

  /** The key byte for byte `i`: the register stepped once per pair, its
      low byte for the first of the pair and its second byte for the
      other. It depends only on the seed and `i`. */
  function WriteKey(seed: nat, i: nat): byte
  {
    var r := Register(seed, i / 2 + 1);
    if i % 2 == 0 then r % 0x100 else (r / 0x100) % 0x100
  }

  /** syx_decode_write on an even-length buffer. */
  function WriteCiphered(data: seq<byte>, seed: nat): (r: seq<byte>)
    ensures |r| == |data|
  {
    seq(|data|, i requires 0 <= i < |data| => Xor8(data[i], WriteKey(seed, i)))
  }

  /** With the same seed, the write cipher is its own inverse. */
  lemma WriteCipherInvolution(data: seq<byte>, seed: nat)
    ensures WriteCiphered(WriteCiphered(data, seed), seed) == data
  {
    forall i | 0 <= i < |data|
      ensures WriteCiphered(WriteCiphered(data, seed), seed)[i] == data[i]
    {
      XorInvolution(data[i], WriteKey(seed, i));
    }
  }

  /** A seed of 0 and the seed 0x545A give the same keystream. */
  lemma WriteSeedZero(data: seq<byte>)
    ensures WriteCiphered(data, 0) == WriteCiphered(data, 0x545a)
  {
    forall i | 0 <= i < |data|
      ensures WriteKey(0, i) == WriteKey(0x545a, i)
    {
      RegisterSeedZero(i / 2 + 1);
    }
  }

  lemma {:induction false} RegisterSeedZero(n: nat)
    ensures Register(0, n) == Register(0x545a, n)
  {
    if n > 0 {
      RegisterSeedZero(n - 1);
    }
  }

  /** Bytes `i` and `i + 1` of pair number `pairs` take their keys from the
      register after `pairs + 1` steps. */
  lemma WritePairAt(data: seq<byte>, seed: nat, pairs: nat, i: nat, reg: nat)
    requires i == 2 * pairs && i + 1 < |data| && reg == Register(seed, pairs + 1)
    ensures WriteCiphered(data, seed)[i] == Xor8(data[i], reg % 0x100)
    ensures WriteCiphered(data, seed)[i + 1] == Xor8(data[i + 1], (reg / 0x100) % 0x100)
  {
    assert i / 2 == pairs && (i + 1) / 2 == pairs && i % 2 == 0 && (i + 1) % 2 == 1;
  }

  /** The ciphered pair number `pairs` follows the ciphered bytes before it. */
  lemma WritePairNext(data: seq<byte>, seed: nat, pairs: nat, i: nat, reg: nat)
    requires i == 2 * pairs && i + 1 < |data| && reg == Register(seed, pairs + 1)
    ensures WriteCiphered(data, seed)[..i + 2]
         == WriteCiphered(data, seed)[..i] + [Xor8(data[i], reg % 0x100)] + [Xor8(data[i + 1], (reg / 0x100) % 0x100)]
  {
    WritePairAt(data, seed, pairs, i, reg);
    var w := WriteCiphered(data, seed);
    assert w[..i + 2] == w[..i] + [w[i]] + [w[i + 1]];
  }

  /** syx_decode_write: steps the register once per pair of bytes and
      appends both bytes XORed with it. */
  method DecodeWrite(data: seq<byte>, seed: nat) returns (r: Result<seq<byte>>)
    ensures |data| % 2 != 0 ==> r == Failure(OddLength)
    ensures |data| % 2 == 0 ==> r == Success(WriteCiphered(data, seed))
  {
    var out: seq<byte> := [];
    if |data| % 2 != 0 {
      return Failure(OddLength);
    }
    var dmagic := seed;
    if dmagic == 0 {
      dmagic := 0x545a;
    }
    var i := 0;
    ghost var pairs := 0;
    while i < |data|
      invariant i == 2 * pairs && i <= |data|
      invariant dmagic == Register(seed, pairs)
      invariant out == WriteCiphered(data, seed)[..i]
    {
      if dmagic % 2 == 1 {
        dmagic := Xor(dmagic, 0x8005);
      }
      dmagic := dmagic / 2;
      WritePairNext(data, seed, pairs, i, dmagic);
      out := out + [Xor8(data[i], dmagic % 0x100)];
      out := out + [Xor8(data[i + 1], (dmagic / 0x100) % 0x100)];
      i := i + 2;
      pairs := pairs + 1;
    }
    assert WriteCiphered(data, seed)[..i] == WriteCiphered(data, seed);
    return Success(out);
  }
}
