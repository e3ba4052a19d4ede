/** The best-score file of Tetris_2048.py. The score is written as its binary numeral,
    zero-padded on the left to at least 32 digits and cut into 8-digit chunks from the left,
    one byte per chunk; reading expands every byte back into 8 zero-padded digits, joins
    them and parses the result in base 2. A file holds the value it was read with; the file
    system itself is not modelled, so a file is `Option<seq<byte>>`, None when absent. */
module BestScore {
  import opened Options

  newtype byte = b: int | 0 <= b < 256

  type Bit = b: nat | b < 2

  /** A string of binary digits, most significant first. */
  type Bits = seq<Bit>

  /** The one way reading can fail: `int('', 2)` on an empty file raises a ValueError. */
  datatype ReadError = EmptyNumeral

  function Pow2(n: nat): (p: nat)
    ensures p >= 1
  {
    if n == 0 then 1 else 2 * Pow2(n - 1)
  }

  lemma {:induction false} Pow2Monotone(a: nat, b: nat)
    requires a <= b
    ensures Pow2(a) <= Pow2(b)
    decreases b
  {
    if a < b {
      Pow2Monotone(a, b - 1);
    }
  }

  lemma {:induction false} Pow2Add(a: nat, b: nat)
    ensures Pow2(a + b) == Pow2(a) * Pow2(b)
    decreases b
  {
    if b > 0 {
      Pow2Add(a, b - 1);
      assert Pow2(a) * Pow2(b) == 2 * (Pow2(a) * Pow2(b - 1));
    }
  }

  lemma Pow2Values()
    ensures Pow2(8) == 256
    ensures Pow2(32) == 0x1_0000_0000
  {
    assert Pow2(4) == 16;
    assert Pow2(8) == 256;
    Pow2Add(8, 8);
    Pow2Add(16, 16);
  }

  // ---------------------------------------------------------------------------------------
  // Python's numeral primitives

  /** `int(bits, 2)` on a non-empty string; the empty string reads as 0 here, and the one
      caller that can meet it, DecodeScore, reports the failure instead. */
  function ParseBits(bits: Bits): (v: nat)
    ensures v < Pow2(|bits|)
  {
    if |bits| == 0 then 0 else 2 * ParseBits(bits[..|bits| - 1]) + bits[|bits| - 1]
  }

  /** `bin(n)[2:]`: the shortest numeral of n, which starts with 1 unless n is 0. */
  function Binary(n: nat): (bits: Bits)
    ensures 1 <= |bits| && ParseBits(bits) == n
    ensures bits[0] == 1 || bits == [0]
    decreases n
  {
    if n < 2 then [n] else Binary(n / 2) + [n % 2]
  }

  function Zeros(k: nat): (z: Bits)
    ensures |z| == k && forall i :: 0 <= i < k ==> z[i] == 0
  {
    seq(k, _ => 0)
  }

  /** `bits.rjust(width, '0')`: pads on the left up to `width` digits; a longer string is
      left alone. */
  function RJust(bits: Bits, width: nat): (padded: Bits)
    ensures |padded| == if |bits| >= width then |bits| else width
    ensures padded == Zeros(|padded| - |bits|) + bits
  {
    if |bits| >= width then bits else Zeros(width - |bits|) + bits
  }

  // ---------------------------------------------------------------------------------------
  // Encoding (save_best_score) and decoding (read_best_score)

  /** The chunking loop: `int(bits[i:i+8], 2)` for i = 0, 8, 16, ...; the last chunk is
      shorter when the length is not a multiple of 8. */
  function PackBytes(bits: Bits): (bytes: seq<byte>)
    ensures |bytes| == (|bits| + 7) / 8
    decreases |bits|
  {
    if |bits| == 0 then []
    else
      var n := if |bits| < 8 then |bits| else 8;
      Pow2Monotone(n, 8);
      Pow2Values();
      [ParseBits(bits[..n]) as byte] + PackBytes(bits[n..])
  }

  /** `"{0:032b}".format(s)`: the numeral of s, zero-padded to 32 digits below 2^32; from
      2^32 on it is the bare numeral, which is longer. */
  function Format32(s: nat): (bits: Bits)
    ensures ParseBits(bits) == s
    ensures s < 0x1_0000_0000 ==> |bits| == 32
    ensures s >= 0x1_0000_0000 ==> bits == Binary(s) && |bits| > 32
  {
    BinaryWidth(s);
    RJustKeepsValue(Binary(s), 32);
    RJust(Binary(s), 32)
  }

  /** The bytes `save_best_score` writes for score s: 4 of them below 2^32, more from
      2^32 on. */
  function EncodeScore(s: nat): (bytes: seq<byte>)
    ensures |bytes| >= 4
    ensures |bytes| == 4 <==> s < 0x1_0000_0000
  {
    PackBytes(Format32(s))
  }

  /** `bin(byte)[2:].rjust(8, '0')`: 8 digits worth the byte. */
  function ByteBits(b: byte): (bits: Bits)
    ensures |bits| == 8 && ParseBits(bits) == b as nat
  {
    Pow2Values();
    BinaryLength(b as nat, 8);
    RJustKeepsValue(Binary(b as nat), 8);
    RJust(Binary(b as nat), 8)
  }

  /** The digit string built by the reading loop: each byte's 8 digits, in file order. */
  function UnpackBits(bytes: seq<byte>): (bits: Bits)
    ensures |bits| == 8 * |bytes|
  {
    if |bytes| == 0 then [] else ByteBits(bytes[0]) + UnpackBits(bytes[1..])
  }

  /** Parses the bytes of a best-score file: an empty file has no numeral to parse, and
      any other file gives a number below 2^(8 * its length). */
  function DecodeScore(bytes: seq<byte>): (r: Result<nat, ReadError>)
    ensures r.Failure? <==> |bytes| == 0
    ensures r.Failure? ==> r.error == EmptyNumeral
    ensures r.Success? ==> r.value < Pow2(8 * |bytes|)
  {
    if |bytes| == 0 then Failure(EmptyNumeral) else Success(ParseBits(UnpackBits(bytes)))
  }

  /** The unsigned big-endian value of a byte string, the independent reference for the
      codec. */
  function BigEndian(bytes: seq<byte>): nat
  {
    if |bytes| == 0 then 0 else BigEndian(bytes[..|bytes| - 1]) * 256 + bytes[|bytes| - 1] as nat
  }

  // ---------------------------------------------------------------------------------------
  // Facts about numerals

  /** Parsing a concatenation: the left part is shifted by the length of the right part. */
  lemma {:induction false} ParseBitsAppend(a: Bits, b: Bits)
    ensures ParseBits(a + b) == ParseBits(a) * Pow2(|b|) + ParseBits(b)
    decreases |b|
  {
    if |b| == 0 {
      assert a + b == a;
    } else {
      var b' := b[..|b| - 1];
      var x := b[|b| - 1];
      var ab := a + b;
      assert ab[..|ab| - 1] == a + b';
      assert ab[|ab| - 1] == x;
      assert ParseBits(ab) == 2 * ParseBits(a + b') + x;
      assert ParseBits(b) == 2 * ParseBits(b') + x;
      ParseBitsAppend(a, b');
      assert Pow2(|b|) == 2 * Pow2(|b'|);
      ShiftOneDigit(ParseBits(a), Pow2(|b'|), ParseBits(b'), x);
    }
  }

  /** One more digit after a shifted prefix: 2(p*k + q) + x == p*(2k) + (2q + x). */
  lemma ShiftOneDigit(p: nat, k: nat, q: nat, x: nat)
    ensures 2 * (p * k + q) + x == p * (2 * k) + (2 * q + x)
  {
  }

  /** Leading zeros do not change the value of a numeral. */
  lemma RJustKeepsValue(bits: Bits, width: nat)
    ensures ParseBits(RJust(bits, width)) == ParseBits(bits)
    ensures |RJust(bits, width)| == if |bits| >= width then |bits| else width
  {
    if |bits| < width {
      ZerosAreZero(width - |bits|);
      ParseBitsAppend(Zeros(width - |bits|), bits);
    }
  }

  lemma {:induction false} ZerosAreZero(k: nat)
    ensures ParseBits(Zeros(k)) == 0
  {
    if k > 0 {
      assert Zeros(k)[..k - 1] == Zeros(k - 1);
      ZerosAreZero(k - 1);
    }
  }

  /** The only numeral of value 0 of a given length is all zeros. */
  lemma {:induction false} ZeroValueIsZeros(bits: Bits)
    requires ParseBits(bits) == 0
    ensures bits == Zeros(|bits|)
  {
    if |bits| > 0 {
      ZeroValueIsZeros(bits[..|bits| - 1]);
      assert bits == bits[..|bits| - 1] + [bits[|bits| - 1]];
    }
  }

  /** A numeral of a number below 2^k has at most k digits. */
  lemma {:induction false} BinaryLength(n: nat, k: nat)
    requires 1 <= k && n < Pow2(k)
    ensures |Binary(n)| <= k
    decreases n
  {
    if n >= 2 {
      assert n / 2 < Pow2(k - 1);
      BinaryLength(n / 2, k - 1);
    }
  }

  /** A numeral with a leading 1 is worth at least 2^(length - 1). */
  lemma LeadingOneBound(bits: Bits)
    requires |bits| >= 1 && bits[0] == 1
    ensures ParseBits(bits) >= Pow2(|bits| - 1)
  {
    assert bits == [bits[0]] + bits[1..];
    ParseBitsAppend([bits[0]], bits[1..]);
    assert ParseBits([bits[0]]) == 1 by {
      var one: Bits := [bits[0]];
      assert one[..0] == [];
    }
  }

  /** Printing a parsed numeral back with the same width restores it, leading zeros
      included: a byte's 8 digits survive the round trip through its value. */
  lemma {:induction false} PrintParse(c: Bits)
    requires |c| >= 1
    ensures RJust(Binary(ParseBits(c)), |c|) == c
    decreases |c|
  {
    var n := |c|;
    var c' := c[..n - 1];
    var x := c[n - 1];
    var p := ParseBits(c');
    assert c == c' + [x];
    assert ParseBits(c) == 2 * p + x;
    if n == 1 {
      assert ParseBits(c) == x;
    } else if p == 0 {
      assert Binary(ParseBits(c)) == [x];
      ZeroValueIsZeros(c');
      assert RJust([x], n) == Zeros(n - 1) + [x];
    } else {
      var bin := Binary(p);
      assert Binary(ParseBits(c)) == bin + [x] by {
        assert (2 * p + x) / 2 == p && (2 * p + x) % 2 == x;
      }
      BinaryLength(p, n - 1);
      PrintParse(c');
      assert RJust(bin + [x], n) == RJust(bin, n - 1) + [x] by {
        assert Zeros(n - |bin| - 1) + bin + [x] == (Zeros(n - 1 - |bin|) + bin) + [x];
      }
    }
  }

  /** Reading joins the bytes' digit strings. */
  lemma {:induction false} UnpackBitsAppend(a: seq<byte>, b: seq<byte>)
    ensures UnpackBits(a + b) == UnpackBits(a) + UnpackBits(b)
  {
    if |a| == 0 {
      assert a + b == b;
    } else {
      assert (a + b)[1..] == a[1..] + b;
      UnpackBitsAppend(a[1..], b);
    }
  }

  /** Reading a byte string yields 8 digits per byte whose value is the string's
      big-endian value. */
  lemma {:induction false} UnpackBitsValue(bytes: seq<byte>)
    ensures |UnpackBits(bytes)| == 8 * |bytes|
    ensures ParseBits(UnpackBits(bytes)) == BigEndian(bytes)
  {
    if |bytes| > 0 {
      var prefix := bytes[..|bytes| - 1];
      var last := bytes[|bytes| - 1];
      assert UnpackBits(bytes) == UnpackBits(prefix) + ByteBits(last) by {
        assert bytes == prefix + [last];
        UnpackBitsAppend(prefix, [last]);
        UnpackSingle(last);
      }
      UnpackBitsValue(prefix);
      ParseBitsAppend(UnpackBits(prefix), ByteBits(last));
      Pow2Values();
    }
  }

  /** The first 8 digits of a longer string make the first byte. */
  lemma PackBytesFirst(bits: Bits)
    requires |bits| >= 8
    ensures ParseBits(bits[..8]) < 256
    ensures PackBytes(bits) == [ParseBits(bits[..8]) as byte] + PackBytes(bits[8..])
  {
    Pow2Values();
  }

  /** A single byte expands to its own 8 digits. */
  lemma UnpackSingle(b: byte)
    ensures UnpackBits([b]) == ByteBits(b)
  {
    var single := [b];
    assert single[1..] == [];
  }

  /** An 8-digit chunk survives being turned into a byte and expanded again. */
  lemma ChunkBits(chunk: Bits)
    requires |chunk| == 8
    ensures ParseBits(chunk) < 256
    ensures ByteBits(ParseBits(chunk) as byte) == chunk
  {
    Pow2Values();
    PrintParse(chunk);
  }

  /** Where the last whole chunk of a string of n digits ends. */
  lemma ChunkBoundary(n: nat)
    ensures n / 8 * 8 <= n < n / 8 * 8 + 8 && (n / 8 * 8) % 8 == 0
  {
  }

  /** A whole number of chunks, less the first one, is still a whole number of chunks. */
  lemma NextChunk(n: nat)
    requires n > 0 && n % 8 == 0
    ensures n >= 8 && (n - 8) % 8 == 0
  {
  }

  /** Reading back the bytes written for a digit string whose length is a multiple of 8
      gives the digit string itself. */
  lemma {:induction false} UnpackPack(bits: Bits)
    requires |bits| % 8 == 0
    ensures UnpackBits(PackBytes(bits)) == bits
    decreases |bits|
  {
    if |bits| > 0 {
      NextChunk(|bits|);
      var chunk, rest := bits[..8], bits[8..];
      var b := ParseBits(chunk) as byte by {
        ChunkBits(chunk);
      }
      assert PackBytes(bits) == [b] + PackBytes(rest) by {
        PackBytesFirst(bits);
      }
      assert UnpackBits([b] + PackBytes(rest)) == ByteBits(b) + UnpackBits(PackBytes(rest)) by {
        UnpackBitsAppend([b], PackBytes(rest));
        UnpackSingle(b);
      }
      assert ByteBits(b) == chunk by {
        ChunkBits(chunk);
      }
      assert UnpackBits(PackBytes(rest)) == rest by {
        UnpackPack(rest);
      }
      assert bits == chunk + rest;
    }
  }

  // ---------------------------------------------------------------------------------------
  // The codec

  /** Reading a non-empty file gives the big-endian value of its bytes; an empty file
      fails. */
  lemma DecodeIsBigEndian(bytes: seq<byte>)
    ensures |bytes| == 0 ==> DecodeScore(bytes) == Failure(EmptyNumeral)
    ensures |bytes| > 0 ==> DecodeScore(bytes) == Success(BigEndian(bytes))
  {
    UnpackBitsValue(bytes);
  }

  /** Every score below 2^32 is written as 32 digits, so as exactly 4 bytes, and reads back
      unchanged. */
  lemma RoundTrip(s: nat)
    requires s < 0x1_0000_0000
    ensures |EncodeScore(s)| == 4
    ensures DecodeScore(EncodeScore(s)) == Success(s)
  {
    Pow2Values();
    BinaryLength(s, 32);
    RJustKeepsValue(Binary(s), 32);
    UnpackPack(Format32(s));
  }

  lemma SmallScoresRoundTrip(s: nat)
    ensures s < 0x1_0000_0000 ==> DecodeScore(EncodeScore(s)) == Success(s)
  {
    if s < 0x1_0000_0000 {
      RoundTrip(s);
    }
  }

  /** The big-endian value of 4 bytes, written out. */
  lemma BigEndianFour(e: seq<byte>)
    requires |e| == 4
    ensures BigEndian(e) == ((e[0] as nat * 256 + e[1] as nat) * 256 + e[2] as nat) * 256 + e[3] as nat
  {
    var e1, e2, e3 := e[..1], e[..2], e[..3];
    assert e1[..0] == [];
    assert BigEndian(e1) == e[0] as nat;
    assert e2[..1] == e1;
    assert BigEndian(e2) == e[0] as nat * 256 + e[1] as nat;
    assert e3[..2] == e2;
    assert BigEndian(e3) == (e[0] as nat * 256 + e[1] as nat) * 256 + e[2] as nat;
    assert e[..3] == e3;
  }

  /** The four base-256 digits of a number below 2^32 are its bytes. */
  lemma BaseDigits(s: nat, d0: nat, d1: nat, d2: nat, d3: nat)
    requires d1 < 256 && d2 < 256 && d3 < 256
    requires s == ((d0 * 256 + d1) * 256 + d2) * 256 + d3
    ensures d0 == s / 256 / 256 / 256 && d1 == s / 256 / 256 % 256
    ensures d2 == s / 256 % 256 && d3 == s % 256
  {
    var v1 := d0 * 256 + d1;
    var v2 := v1 * 256 + d2;
    ShiftOutByte(v2, d3);
    ShiftOutByte(v1, d2);
    ShiftOutByte(d0, d1);
  }

  /** A score below 2^32 is written as its 4-byte big-endian representation: the byte at
      position k from the end is the score shifted right by 8k bits, modulo 256. */
  lemma EncodeIsBigEndian(s: nat)
    requires s < 0x1_0000_0000
    ensures EncodeScore(s) == [(s / 256 / 256 / 256) as byte, (s / 256 / 256 % 256) as byte,
                               (s / 256 % 256) as byte, (s % 256) as byte]
  {
    var e := EncodeScore(s);
    assert |e| == 4 && BigEndian(e) == s by {
      RoundTrip(s);
      DecodeIsBigEndian(e);
    }
    BigEndianFour(e);
    BaseDigits(s, e[0] as nat, e[1] as nat, e[2] as nat, e[3] as nat);
    assert e == [e[0], e[1], e[2], e[3]];
  }

  lemma ShiftOutByte(high: nat, low: nat)
    requires low < 256
    ensures (high * 256 + low) / 256 == high && (high * 256 + low) % 256 == low
  {
  }

  // ---------------------------------------------------------------------------------------
  // Scores of 33 digits or more

  /** Cutting a digit string after a whole number of bytes cuts its packing there too. */
  lemma {:induction false} PackBytesAppend(full: Bits, tail: Bits)
    requires |full| % 8 == 0
    ensures PackBytes(full + tail) == PackBytes(full) + PackBytes(tail)
    decreases |full|
  {
    if |full| == 0 {
      assert full + tail == tail;
    } else {
      var ft := full + tail;
      assert ft[..8] == full[..8];
      assert ft[8..] == full[8..] + tail;
      PackBytesAppend(full[8..], tail);
    }
  }

  /** Padding to one width and then to a larger one pads to the larger one. */
  lemma RJustTwice(bits: Bits, a: nat, b: nat)
    requires |bits| <= a <= b
    ensures RJust(RJust(bits, a), b) == RJust(bits, b)
  {
    assert Zeros(b - a) + Zeros(a - |bits|) == Zeros(b - |bits|);
  }

  /** A chunk of fewer than 8 digits is read back as 8 digits: zeros in front of it. */
  lemma ShortChunkBits(tail: Bits)
    requires 1 <= |tail| < 8
    ensures ParseBits(tail) < 256
    ensures ByteBits(ParseBits(tail) as byte) == Zeros(8 - |tail|) + tail
  {
    var p := ParseBits(tail);
    Pow2Monotone(|tail|, 8);
    Pow2Values();
    BinaryLength(p, |tail|);
    PrintParse(tail);
    RJustTwice(Binary(p), |tail|, 8);
  }

  /** A number is below 2^32 exactly when its numeral has at most 32 digits. */
  lemma BinaryWidth(s: nat)
    ensures s < 0x1_0000_0000 <==> |Binary(s)| <= 32
  {
    Pow2Values();
    if s < 0x1_0000_0000 {
      BinaryLength(s, 32);
    } else if |Binary(s)| <= 32 {
      Pow2Monotone(|Binary(s)|, 32);
      assert false;
    }
  }

  /** Packing a digit string whose last chunk is short and reading it back puts zeros in
      front of that chunk. */
  lemma ShortTailUnpack(full: Bits, tail: Bits)
    requires |full| % 8 == 0 && 1 <= |tail| < 8
    ensures UnpackBits(PackBytes(full + tail)) == full + Zeros(8 - |tail|) + tail
  {
    var t := ParseBits(tail);
    ShortChunkBits(tail);
    var packed := PackBytes(full) + [t as byte];
    assert PackBytes(full + tail) == packed by {
      PackBytesAppend(full, tail);
      PackShortChunk(tail);
    }
    assert UnpackBits(packed) == full + ByteBits(t as byte) by {
      UnpackBitsAppend(PackBytes(full), [t as byte]);
      UnpackPack(full);
      UnpackSingle(t as byte);
    }
  }

  /** A chunk of fewer than 8 digits packs into one byte. */
  lemma PackShortChunk(tail: Bits)
    requires 1 <= |tail| < 8
    ensures ParseBits(tail) < 256 && PackBytes(tail) == [ParseBits(tail) as byte]
  {
    Pow2Monotone(|tail|, 8);
    Pow2Values();
    assert tail[..|tail|] == tail && tail[|tail|..] == [];
  }

  /** The value of a digit string with zeros slipped in before its last k < 8 digits. */
  lemma WidenedTailValue(full: Bits, tail: Bits)
    requires |tail| < 8
    ensures ParseBits(full + tail) == ParseBits(full) * Pow2(|tail|) + ParseBits(tail)
    ensures ParseBits(full + Zeros(8 - |tail|) + tail) == ParseBits(full) * 256 + ParseBits(tail)
  {
    var k := |tail|;
    var z := Zeros(8 - k);
    var f, t := ParseBits(full), ParseBits(tail);
    ParseBitsAppend(full, tail);
    assert ParseBits(full + z) == f * Pow2(8 - k) by {
      ParseBitsAppend(full, z);
      ZerosAreZero(8 - k);
    }
    assert ParseBits(full + z + tail) == ParseBits(full + z) * Pow2(k) + t by {
      ParseBitsAppend(full + z, tail);
    }
    assert Pow2(8 - k) * Pow2(k) == 256 by {
      Pow2Add(8 - k, k);
      Pow2Values();
    }
    ProductAssoc(f, Pow2(8 - k), Pow2(k));
  }

  lemma ProductAssoc(a: nat, b: nat, c: nat)
    ensures a * b * c == a * (b * c)
  {
  }

  /** Widening by slipped-in zeros strictly increases a value with a nonzero prefix. */
  lemma WideningGrows(f: nat, k: nat)
    requires f >= 1 && k < 8
    ensures f * 256 > f * Pow2(k)
  {
    Pow2Monotone(k, 7);
    assert Pow2(7) == 128;
  }

  /** A score whose 32-digit numeral is a whole number of bytes long reads back as itself. */
  lemma WholeBytesRoundTrip(s: nat)
    requires |Format32(s)| % 8 == 0
    ensures DecodeScore(EncodeScore(s)) == Success(s)
  {
    UnpackPack(Format32(s));
  }

  /** A score whose 32-digit numeral ends in a chunk of fewer than 8 digits reads back as a
      larger number. */
  lemma ShortChunkGrows(s: nat)
    requires |Format32(s)| % 8 != 0
    ensures DecodeScore(EncodeScore(s)).Success?
    ensures DecodeScore(EncodeScore(s)).value > s
  {
    var bits := Format32(s);
    assert bits == Binary(s) && |bits| > 32 && bits[0] == 1;
    assert ParseBits(bits) == s;
    assert EncodeScore(s) == PackBytes(bits);
    var q := |bits| / 8 * 8;
    ChunkBoundary(|bits|);
    var full, tail := bits[..q], bits[q..];
    assert bits == full + tail;
    ShortTailGrows(full, tail);
  }

  /** A digit string with a leading 1, a whole number of bytes and then a short chunk reads
      back as a larger number than it is worth. */
  lemma ShortTailGrows(full: Bits, tail: Bits)
    requires |full| % 8 == 0 && |full| >= 1 && full[0] == 1 && 1 <= |tail| < 8
    ensures DecodeScore(PackBytes(full + tail)).Success?
    ensures DecodeScore(PackBytes(full + tail)).value > ParseBits(full + tail)
  {
    var k := |tail|;
    var read := full + Zeros(8 - k) + tail;
    assert UnpackBits(PackBytes(full + tail)) == read by {
      ShortTailUnpack(full, tail);
    }
    var f, t := ParseBits(full), ParseBits(tail);
    assert ParseBits(read) == f * 256 + t && ParseBits(full + tail) == f * Pow2(k) + t by {
      WidenedTailValue(full, tail);
    }
    assert f >= 1 by {
      LeadingOneBound(full);
    }
    WideningGrows(f, k);
  }

  /** Every score reads back as at least itself, and as exactly itself precisely when its
      32-digit numeral is a whole number of bytes long. Otherwise the last chunk of fewer
      than 8 digits is written as a byte and read back with zeros in front of it, which
      shifts the digits before it to the left. */
  lemma EncodeDecode(s: nat)
    ensures DecodeScore(EncodeScore(s)).Success?
    ensures DecodeScore(EncodeScore(s)).value >= s
    ensures DecodeScore(EncodeScore(s)).value == s <==> |Format32(s)| % 8 == 0
  {
    if |Format32(s)| % 8 == 0 {
      WholeBytesRoundTrip(s);
    } else {
      ShortChunkGrows(s);
    }
  }

  /** The scores that read back unchanged are those below 2^32 and those whose numeral is
      a whole number of bytes long. */
  lemma RoundTripExactly(s: nat)
    ensures DecodeScore(EncodeScore(s)) == Success(s) <==>
            s < 0x1_0000_0000 || |Binary(s)| % 8 == 0
  {
    var n := |Format32(s)|;
    if s < 0x1_0000_0000 {
      assert n == 32;
    } else {
      assert n == |Binary(s)|;
    }
    if n % 8 == 0 {
      WholeBytesRoundTrip(s);
    } else {
      ShortChunkGrows(s);
    }
  }

  /** Every score of 33 digits, from 2^32 up to 2^33 - 1, reads back as a larger number:
      its last chunk is the single digit after the first 32. */
  lemma ThirtyThreeDigitScoresGrow(s: nat)
    requires 0x1_0000_0000 <= s < 0x2_0000_0000
    ensures |Binary(s)| == 33
    ensures DecodeScore(EncodeScore(s)).Success? && DecodeScore(EncodeScore(s)).value > s
  {
    assert |Format32(s)| == |Binary(s)| > 32;
    assert |Binary(s)| <= 33 by {
      Pow2Values();
      assert Pow2(33) == 2 * Pow2(32);
      BinaryLength(s, 33);
    }
    ShortChunkGrows(s);
  }


  // ---------------------------------------------------------------------------------------
  // The file operations

  /** `read_best_score`: 0 without a file, the file's value otherwise; an empty file makes
      the parse fail. */
  function ReadBestScore(file: Option<seq<byte>>): (r: Result<nat, ReadError>)
    ensures file.None? ==> r == Success(0)
    ensures file.Some? && |file.value| > 0 ==> r == Success(BigEndian(file.value))
    ensures r.Failure? <==> file == Some([])
  {
    if file.None? then Success(0)
    else
      DecodeIsBigEndian(file.value);
      DecodeScore(file.value)
  }

  /** `save_best_score`: the contents of the file afterwards. Without a file the score is
      written; with one, the score replaces the stored value only when it is larger, and
      the file is otherwise left as it was. An empty file makes the parse of the stored
      value fail. The stored best score never decreases and is at least the new score; it
      is exactly the larger of the two whenever the new score is below 2^32. */
  function SaveBestScore(file: Option<seq<byte>>, best: nat): (r: Result<seq<byte>, ReadError>)
    ensures r.Failure? <==> file == Some([])
    ensures r.Success? ==>
      var stored := ReadBestScore(file).value;
      var now := ReadBestScore(Some(r.value));
      now.Success? && now.value >= stored && now.value >= best &&
      (best < 0x1_0000_0000 ==> now.value == if best > stored then best else stored)
    ensures r.Success? && file.Some? && best <= ReadBestScore(file).value ==> r.value == file.value
    ensures r.Success? && (file.None? || best > ReadBestScore(file).value) ==>
      r.value == EncodeScore(best)
  {
    EncodeDecode(best);
    SmallScoresRoundTrip(best);
    if file.None? then Success(EncodeScore(best))
    else
      match DecodeScore(file.value)
      case Failure(e) => Failure(e)
      case Success(stored) =>
        if best > stored then Success(EncodeScore(best)) else Success(file.value)
  }
}
