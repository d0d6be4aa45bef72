/** Big-endian integer decoding, as done by the static helpers of class `Util`.

    The helpers take a `const char *`, so every byte is a (signed) `char` that
    C++ promotes to `int` by sign extension before shifting and masking. The
    model keeps that: `SignExtend32`/`SignExtend64` give the promoted value's
    bit pattern, and the decoders are the source's bit expressions over it.
    Each is then proved equal to the standard big-endian value `FromBytes`. */
module BigEndian {
  import opened Bytes

  /** 256^n */
  function Pow256(n: nat): (r: nat)
    ensures r > 0
  {
    if n == 0 then 1 else 256 * Pow256(n - 1)
  }

  /** The standard big-endian value of `s`: the sum of s[i] * 256^(|s|-1-i). */
  function FromBytes(s: seq<byte>): nat
  {
    if s == [] then 0 else s[0] as int * Pow256(|s| - 1) + FromBytes(s[1..])
  }

  /** The `n`-byte big-endian encoding of `v` (its low `n` bytes). */
  function ToBytes(v: nat, n: nat): (r: seq<byte>)
    ensures |r| == n
  {
    if n == 0 then [] else [((v / Pow256(n - 1)) % 256) as byte] + ToBytes(v % Pow256(n - 1), n - 1)
  }

  lemma MulMono(a: int, b: int, p: int)
    requires 0 <= a <= b && 0 <= p
    ensures a * p <= b * p
  {
  }

  lemma DivModUnique(a: int, b: int, p: int)
    requires 0 <= a && 0 < p && 0 <= b < p
    ensures (a * p + b) / p == a && (a * p + b) % p == b
  {
    var x := a * p + b;
    var q, r := x / p, x % p;
    assert x == q * p + r;
    assert (q - a) * p == b - r by {
      assert (q - a) * p == q * p - a * p;
    }
    if q > a {
      MulMono(1, q - a, p);
    } else if q < a {
      MulMono(1, a - q, p);
    }
  }

  lemma {:induction false} FromBytesBound(s: seq<byte>)
    ensures FromBytes(s) < Pow256(|s|)
  {
    if s != [] {
      FromBytesBound(s[1..]);
      var d, p := s[0] as int, Pow256(|s| - 1);
      assert FromBytes(s) == d * p + FromBytes(s[1..]);
      MulMono(d, 255, p);
    }
  }

  lemma DivMod(v: int, p: int)
    requires 0 < p
    ensures v == (v / p) * p + v % p
  {
  }

  lemma ToBytesHead(v: nat, n: nat)
    requires 0 < n && v < Pow256(n)
    ensures ToBytes(v, n)[0] as int == v / Pow256(n - 1)
    ensures ToBytes(v, n)[1..] == ToBytes(v % Pow256(n - 1), n - 1)
  {
    var p := Pow256(n - 1);
    var q := v / p;
    assert q < 256 by {
      if q >= 256 {
        MulMono(256, q, p);
      }
    }
    ByteOfValue(q);
  }

  lemma FromBytesCons(s: seq<byte>)
    requires s != []
    ensures FromBytes(s) == s[0] as int * Pow256(|s| - 1) + FromBytes(s[1..])
  {
  }

  /** Decoding an encoding gives the value back, for every value that fits. */
  lemma {:induction false} FromToBytes(v: nat, n: nat)
    requires v < Pow256(n)
    ensures FromBytes(ToBytes(v, n)) == v
  {
    if n > 0 {
      var p, r := Pow256(n - 1), ToBytes(v, n);
      var q, m := v / p, v % p;
      ToBytesHead(v, n);
      FromToBytes(m, n - 1);
      assert FromBytes(r[1..]) == m;
      FromBytesCons(r);
      assert FromBytes(r) == q * p + m;
      DivMod(v, p);
    }
  }

  /** Encoding a decoded sequence gives the sequence back. */
  lemma {:induction false} ToFromBytes(s: seq<byte>)
    ensures ToBytes(FromBytes(s), |s|) == s
  {
    if s != [] {
      var n, d, p, rest := |s|, s[0] as int, Pow256(|s| - 1), FromBytes(s[1..]);
      var v := FromBytes(s);
      assert v == d * p + rest;
      FromBytesBound(s);
      FromBytesBound(s[1..]);
      DivModUnique(d, rest, p);
      assert v / p == d && v % p == rest;
      var r := ToBytes(v, n);
      ToBytesHead(v, n);
      assert r[0] as int == s[0] as int;
      ToFromBytes(s[1..]);
      assert r[1..] == ToBytes(rest, n - 1);
      ByteInjective(r[0], s[0]);
      assert r[1..] == s[1..];
      assert r == [r[0]] + r[1..];
      assert s == [s[0]] + s[1..];
    }
  }

  // ---------------------------------------------------------------------
  // Bit patterns and their unsigned values.

  /** The bytes of a 16-bit pattern, most significant first. */
  function Bytes16(x: bv16): (r: seq<byte>)
    ensures |r| == 2
  {
    [(x >> 8) as byte, (x & 0xFF) as byte]
  }

  /** The bytes of a 32-bit pattern, most significant first. */
  function Bytes32(x: bv32): (r: seq<byte>)
    ensures |r| == 4
  {
    [(x >> 24) as byte, ((x >> 16) & 0xFF) as byte, ((x >> 8) & 0xFF) as byte, (x & 0xFF) as byte]
  }

  /** The bytes of a 64-bit pattern, most significant first. */
  function Bytes64(x: bv64): (r: seq<byte>)
    ensures |r| == 8
  {
    [(x >> 56) as byte, ((x >> 48) & 0xFF) as byte, ((x >> 40) & 0xFF) as byte, ((x >> 32) & 0xFF) as byte,
     ((x >> 24) & 0xFF) as byte, ((x >> 16) & 0xFF) as byte, ((x >> 8) & 0xFF) as byte, (x & 0xFF) as byte]
  }

  lemma Pow256Values()
    ensures Pow256(1) == 0x100 && Pow256(2) == 0x1_0000 && Pow256(4) == 0x1_0000_0000
    ensures Pow256(8) == 0x1_0000_0000_0000_0000
  {
    assert Pow256(2) == 256 * Pow256(1);
    assert Pow256(4) == 256 * (256 * Pow256(2));
    assert Pow256(8) == 256 * (256 * (256 * (256 * Pow256(4))));
  }

  /** The value of a bit pattern read as an unsigned integer (`uint16_t`, `uint32_t`, `uint64_t`). */
  function Unsigned16(x: bv16): (r: nat)
    ensures r < 0x1_0000
  {
    FromBytesBound(Bytes16(x));
    Pow256Values();
    FromBytes(Bytes16(x))
  }

  function Unsigned32(x: bv32): (r: nat)
    ensures r < 0x1_0000_0000
  {
    FromBytesBound(Bytes32(x));
    Pow256Values();
    FromBytes(Bytes32(x))
  }

  function Unsigned64(x: bv64): (r: nat)
    ensures r < 0x1_0000_0000_0000_0000
  {
    FromBytesBound(Bytes64(x));
    Pow256Values();
    FromBytes(Bytes64(x))
  }

  // ---------------------------------------------------------------------
  // The source's decoders, bit for bit; the 64-bit one is evaluated at
  // 64-bit width.

  /** The bit pattern of a `char` promoted to a 32-bit `int`. */
  function SignExtend32(c: byte): bv32
  {
    if c < 0x80 then c as bv32 else c as bv32 | 0xFFFF_FF00
  }

  /** The bit pattern of a `char` promoted to a 64-bit integer. */
  function SignExtend64(c: byte): bv64
  {
    if c < 0x80 then c as bv64 else c as bv64 | 0xFFFF_FFFF_FFFF_FF00
  }

  /** The bits `Util::char2_to_word` computes from `arr[0]`, `arr[1]`:
      `arr[0] << 8 | (arr[1] & 0xff)`. */
  function Char2Bits(a0: byte, a1: byte): bv32
  {
    (SignExtend32(a0) << 8) | (SignExtend32(a1) & 0xff)
  }

  /** `Util::char2_to_word`: its bits truncated to `uint16_t`. */
  function Char2ToWord(arr: seq<byte>): (r: nat)
    requires |arr| >= 2
    ensures r < 0x1_0000
  {
    Unsigned16((Char2Bits(arr[0], arr[1]) & 0xFFFF) as bv16)
  }

  /** The bits `Util::char4_to_dword` computes: four shifted and masked bytes or-ed together. */
  function Char4Bits(a0: byte, a1: byte, a2: byte, a3: byte): bv32
  {
    (SignExtend32(a0) << 24) | ((SignExtend32(a1) << 16) & 0xff_ffff)
      | ((SignExtend32(a2) << 8) & 0xffff) | (SignExtend32(a3) & 0xff)
  }

  /** `Util::char4_to_dword`: its bits as a `uint32_t`. */
  function Char4ToDword(arr: seq<byte>): (r: nat)
    requires |arr| >= 4
    ensures r < 0x1_0000_0000
  {
    Unsigned32(Char4Bits(arr[0], arr[1], arr[2], arr[3]))
  }

  /** The bits of the 64-bit expression of `Util::char8_to_ddword`, evaluated
      at 64-bit width, with `last` in the place of its final term. */
  function Char8Bits(a0: byte, a1: byte, a2: byte, a3: byte, a4: byte, a5: byte, a6: byte, last: byte): bv64
  {
    (SignExtend64(a0) << 56) | ((SignExtend64(a1) << 48) & 0xff_ffff_ffff_ffff)
      | ((SignExtend64(a2) << 40) & 0xffff_ffff_ffff) | ((SignExtend64(a3) << 32) & 0xff_ffff_ffff)
      | ((SignExtend64(a4) << 24) & 0xffff_ffff) | ((SignExtend64(a5) << 16) & 0xff_ffff)
      | ((SignExtend64(a6) << 8) & 0xffff) | (SignExtend64(last) & 0xff)
  }

  /** `Util::char8_to_ddword` as written: the final term reads `arr[0]` where
      `arr[7]` belongs. (The source also shifts a 32-bit `int` by 32 to 56
      bits, which C++ leaves undefined; that is not modelled: the expression
      is evaluated at 64-bit width.) */
  function Char8ToDdwordAsWritten(arr: seq<byte>): (r: nat)
    requires |arr| >= 8
    ensures r < 0x1_0000_0000_0000_0000
  {
    Unsigned64(Char8Bits(arr[0], arr[1], arr[2], arr[3], arr[4], arr[5], arr[6], arr[0]))
  }

  /** `Util::char8_to_ddword` as evidently intended, with `arr[7]` in the final
      term. The footer decoder uses this one. */
  function Char8ToDdword(arr: seq<byte>): (r: nat)
    requires |arr| >= 8
    ensures r < 0x1_0000_0000_0000_0000
  {
    Unsigned64(Char8Bits(arr[0], arr[1], arr[2], arr[3], arr[4], arr[5], arr[6], arr[7]))
  }

  // ---------------------------------------------------------------------
  // Plain packing of bytes, and the facts about bits the proofs rest on.

  function Pack16(a0: byte, a1: byte): bv16 { (a0 as bv16 << 8) | a1 as bv16 }

  function Pack32(a0: byte, a1: byte, a2: byte, a3: byte): bv32
  {
    (a0 as bv32 << 24) | (a1 as bv32 << 16) | (a2 as bv32 << 8) | a3 as bv32
  }

  function Pack64(a0: byte, a1: byte, a2: byte, a3: byte, a4: byte, a5: byte, a6: byte, a7: byte): bv64
  {
    (a0 as bv64 << 56) | (a1 as bv64 << 48) | (a2 as bv64 << 40) | (a3 as bv64 << 32)
      | (a4 as bv64 << 24) | (a5 as bv64 << 16) | (a6 as bv64 << 8) | a7 as bv64
  }

  lemma Bytes16OfPack(a0: byte, a1: byte)
    ensures Bytes16(Pack16(a0, a1)) == [a0, a1]
  {
  }

  lemma Bytes32OfPack(a0: byte, a1: byte, a2: byte, a3: byte)
    ensures Bytes32(Pack32(a0, a1, a2, a3)) == [a0, a1, a2, a3]
  {
  }

  lemma Bytes64OfPack(a0: byte, a1: byte, a2: byte, a3: byte, a4: byte, a5: byte, a6: byte, a7: byte)
    ensures Bytes64(Pack64(a0, a1, a2, a3, a4, a5, a6, a7)) == [a0, a1, a2, a3, a4, a5, a6, a7]
  {
  }

  /** Masking a sign-extended byte, shifted into its lane, removes its sign
      bits: each term of the source's expressions is the plain byte in its lane. */
  lemma SignExtend32Lanes(c: byte)
    ensures SignExtend32(c) << 24 == c as bv32 << 24
    ensures (SignExtend32(c) << 16) & 0xff_ffff == c as bv32 << 16
    ensures (SignExtend32(c) << 8) & 0xffff == c as bv32 << 8
    ensures SignExtend32(c) & 0xff == c as bv32
  {
  }

  lemma SignExtend64Lanes(c: byte)
    ensures SignExtend64(c) << 56 == c as bv64 << 56
    ensures (SignExtend64(c) << 48) & 0xff_ffff_ffff_ffff == c as bv64 << 48
    ensures (SignExtend64(c) << 40) & 0xffff_ffff_ffff == c as bv64 << 40
    ensures (SignExtend64(c) << 32) & 0xff_ffff_ffff == c as bv64 << 32
    ensures (SignExtend64(c) << 24) & 0xffff_ffff == c as bv64 << 24
    ensures (SignExtend64(c) << 16) & 0xff_ffff == c as bv64 << 16
    ensures (SignExtend64(c) << 8) & 0xffff == c as bv64 << 8
    ensures SignExtend64(c) & 0xff == c as bv64
  {
  }

  lemma Char2BitsArePacked(a0: byte, a1: byte)
    ensures (Char2Bits(a0, a1) & 0xFFFF) as bv16 == Pack16(a0, a1)
  {
  }

  lemma Char4BitsArePacked(a0: byte, a1: byte, a2: byte, a3: byte)
    ensures Char4Bits(a0, a1, a2, a3) == Pack32(a0, a1, a2, a3)
  {
    SignExtend32Lanes(a0);
    SignExtend32Lanes(a1);
    SignExtend32Lanes(a2);
    SignExtend32Lanes(a3);
  }

  lemma Char8BitsArePacked(a0: byte, a1: byte, a2: byte, a3: byte, a4: byte, a5: byte, a6: byte, a7: byte)
    ensures Char8Bits(a0, a1, a2, a3, a4, a5, a6, a7) == Pack64(a0, a1, a2, a3, a4, a5, a6, a7)
  {
    SignExtend64Lanes(a0);
    SignExtend64Lanes(a1);
    SignExtend64Lanes(a2);
    SignExtend64Lanes(a3);
    SignExtend64Lanes(a4);
    SignExtend64Lanes(a5);
    SignExtend64Lanes(a6);
    SignExtend64Lanes(a7);
  }

  // ---------------------------------------------------------------------
  // The decoders against the standard big-endian value.

  lemma Char2ToWordIsPacked(arr: seq<byte>)
    requires |arr| >= 2
    ensures Char2ToWord(arr) == Unsigned16(Pack16(arr[0], arr[1]))
  {
    Char2BitsArePacked(arr[0], arr[1]);
  }

  lemma Char4ToDwordIsPacked(arr: seq<byte>)
    requires |arr| >= 4
    ensures Char4ToDword(arr) == Unsigned32(Pack32(arr[0], arr[1], arr[2], arr[3]))
  {
    Char4BitsArePacked(arr[0], arr[1], arr[2], arr[3]);
  }

  lemma Char8ToDdwordIsPacked(arr: seq<byte>)
    requires |arr| >= 8
    ensures Char8ToDdword(arr) == Unsigned64(Pack64(arr[0], arr[1], arr[2], arr[3], arr[4], arr[5], arr[6], arr[7]))
  {
    Char8BitsArePacked(arr[0], arr[1], arr[2], arr[3], arr[4], arr[5], arr[6], arr[7]);
  }

  lemma Char8ToDdwordAsWrittenIsPacked(arr: seq<byte>)
    requires |arr| >= 8
    ensures Char8ToDdwordAsWritten(arr) == Unsigned64(Pack64(arr[0], arr[1], arr[2], arr[3], arr[4], arr[5], arr[6], arr[0]))
  {
    Char8BitsArePacked(arr[0], arr[1], arr[2], arr[3], arr[4], arr[5], arr[6], arr[0]);
  }

  lemma Unsigned16OfPack(a0: byte, a1: byte)
    ensures Unsigned16(Pack16(a0, a1)) == FromBytes([a0, a1])
  {
    Bytes16OfPack(a0, a1);
  }

  lemma Unsigned32OfPack(a0: byte, a1: byte, a2: byte, a3: byte)
    ensures Unsigned32(Pack32(a0, a1, a2, a3)) == FromBytes([a0, a1, a2, a3])
  {
    Bytes32OfPack(a0, a1, a2, a3);
  }

  lemma Unsigned64OfPack(a0: byte, a1: byte, a2: byte, a3: byte, a4: byte, a5: byte, a6: byte, a7: byte)
    ensures Unsigned64(Pack64(a0, a1, a2, a3, a4, a5, a6, a7)) == FromBytes([a0, a1, a2, a3, a4, a5, a6, a7])
  {
    Bytes64OfPack(a0, a1, a2, a3, a4, a5, a6, a7);
  }

  /** `char2_to_word` is the big-endian value of its two bytes, whatever their sign as `char`. */
  lemma Char2ToWordIsBigEndian(arr: seq<byte>)
    requires |arr| >= 2
    ensures Char2ToWord(arr) == FromBytes(arr[..2])
  {
    Char2ToWordIsPacked(arr);
    Unsigned16OfPack(arr[0], arr[1]);
    assert arr[..2] == [arr[0], arr[1]];
  }

  /** `char4_to_dword` is the big-endian value of its four bytes, whatever their sign as `char`. */
  lemma Char4ToDwordIsBigEndian(arr: seq<byte>)
    requires |arr| >= 4
    ensures Char4ToDword(arr) == FromBytes(arr[..4])
  {
    Char4ToDwordIsPacked(arr);
    Unsigned32OfPack(arr[0], arr[1], arr[2], arr[3]);
    assert arr[..4] == [arr[0], arr[1], arr[2], arr[3]];
  }

  /** The corrected 64-bit decoder is the big-endian value of its eight bytes. */
  lemma Char8ToDdwordIsBigEndian(arr: seq<byte>)
    requires |arr| >= 8
    ensures Char8ToDdword(arr) == FromBytes(arr[..8])
  {
    Char8ToDdwordIsPacked(arr);
    Unsigned64OfPack(arr[0], arr[1], arr[2], arr[3], arr[4], arr[5], arr[6], arr[7]);
    assert arr[..8] == [arr[0], arr[1], arr[2], arr[3], arr[4], arr[5], arr[6], arr[7]];
  }

  /** As written, the 64-bit decoder is the big-endian value of bytes 0..6
      followed by byte 0 again: byte 7 is never read. */
  lemma Char8ToDdwordAsWrittenValue(arr: seq<byte>)
    requires |arr| >= 8
    ensures Char8ToDdwordAsWritten(arr) == FromBytes(arr[..7] + [arr[0]])
  {
    Char8ToDdwordAsWrittenIsPacked(arr);
    Unsigned64OfPack(arr[0], arr[1], arr[2], arr[3], arr[4], arr[5], arr[6], arr[0]);
    assert arr[..7] + [arr[0]] == [arr[0], arr[1], arr[2], arr[3], arr[4], arr[5], arr[6], arr[0]];
  }

  /** Leading zero bytes do not change a big-endian value. */
  lemma {:induction false} FromBytesZeroPrefix(z: seq<byte>, s: seq<byte>)
    requires forall i :: 0 <= i < |z| ==> z[i] == 0
    ensures FromBytes(z + s) == FromBytes(s)
  {
    if z != [] {
      assert (z + s)[0] as int == 0;
      assert (z + s)[1..] == z[1..] + s;
      FromBytesZeroPrefix(z[1..], s);
      assert FromBytes(z + s) == 0 * Pow256(|z + s| - 1) + FromBytes(z[1..] + s);
    } else {
      assert z + s == s;
    }
  }

  /** The input that shows the 64-bit defect: the value 1 in eight big-endian
      bytes decodes to 0 as written, and to 1 once corrected. */
  lemma Char8ToDdwordAsWrittenMisreads()
    ensures Char8ToDdwordAsWritten([0, 0, 0, 0, 0, 0, 0, 1]) == 0
    ensures Char8ToDdword([0, 0, 0, 0, 0, 0, 0, 1]) == 1
  {
    var zeros: seq<byte> := [0, 0, 0, 0, 0, 0, 0];
    var one := zeros + [1];
    assert one == [0, 0, 0, 0, 0, 0, 0, 1];
    Char8ToDdwordAsWrittenValue(one);
    Char8ToDdwordIsBigEndian(one);
    assert one[..7] + [one[0]] == zeros + [0];
    assert one[..8] == one;
    FromBytesZeroPrefix(zeros, [0]);
    FromBytesZeroPrefix(zeros, [1]);
    assert FromBytes([1]) == 1 by {
      assert [1 as byte][1..] == [];
    }
    assert FromBytes([0]) == 0 by {
      assert [0 as byte][1..] == [];
    }
  }

  /** The as-written 64-bit decoder agrees with the corrected one exactly
      when byte 7 happens to equal byte 0. */
  lemma Char8ToDdwordAsWrittenAgrees(arr: seq<byte>)
    requires |arr| >= 8
    ensures Char8ToDdwordAsWritten(arr) == Char8ToDdword(arr) <==> arr[7] == arr[0]
  {
    var read, stored := arr[..7] + [arr[0]], arr[..8];
    Char8ToDdwordAsWrittenValue(arr);
    Char8ToDdwordIsBigEndian(arr);
    if arr[7] == arr[0] {
      assert read == stored;
    } else if FromBytes(read) == FromBytes(stored) {
      ToFromBytes(read);
      ToFromBytes(stored);
    }
  }

  /** 16-bit round trip: decoding the big-endian encoding of any `uint16_t` gives it back. */
  lemma Char2ToWordRoundTrip(v: nat)
    requires v < 0x1_0000
    ensures Char2ToWord(ToBytes(v, 2)) == v
  {
    Char2ToWordIsBigEndian(ToBytes(v, 2));
    assert ToBytes(v, 2)[..2] == ToBytes(v, 2);
    FromToBytes(v, 2);
  }

  /** 32-bit round trip. */
  lemma Char4ToDwordRoundTrip(v: nat)
    requires v < 0x1_0000_0000
    ensures Char4ToDword(ToBytes(v, 4)) == v
  {
    Char4ToDwordIsBigEndian(ToBytes(v, 4));
    assert ToBytes(v, 4)[..4] == ToBytes(v, 4);
    FromToBytes(v, 4);
  }

  /** 64-bit round trip, for the corrected decoder. */
  lemma Char8ToDdwordRoundTrip(v: nat)
    requires v < 0x1_0000_0000_0000_0000
    ensures Char8ToDdword(ToBytes(v, 8)) == v
  {
    Char8ToDdwordIsBigEndian(ToBytes(v, 8));
    assert ToBytes(v, 8)[..8] == ToBytes(v, 8);
    FromToBytes(v, 8);
  }
}
