/**
 The two encodings every persisted entry is built from: 64-bit FNV-1a over bytes, and little-endian words.
 */
module Checksum {
  import opened Arithmetic
  import opened Basics

  const WORD: nat := 0x1_0000_0000_0000_0000
  const PRIME: nat := 0x100_0000_01B3
  const BASIS: nat := 0xCBF2_9CE4_8422_2325

  // ----- FNV-1a ------------------------------------------------------------

  /** Exclusive or of the low `n` bits. */
  function Xor(a: nat, b: nat, n: nat): nat {
    if n == 0 then 0 else (a + b) % 2 + 2 * Xor(a / 2, b / 2, n - 1)
  }

  /** A byte meets the low eight bits of the hash. */
  function Blended(hash: nat, b: byte): nat { hash / 256 * 256 + Xor(hash % 256, b, 8) }

  /** One byte into the hash: the product wraps at 64 bits. */
  function Mixed(hash: nat, b: byte): nat { Blended(hash, b) * PRIME % WORD }

  function Fnv(data: seq<byte>, seed: nat): nat {
    if data == [] then seed else Fnv(data[1..], Mixed(seed, data[0]))
  }

  method Fnv1a(data: seq<byte>, seed: nat) returns (hash: nat)
    ensures hash == Fnv(data, seed)
  {
    hash := seed;
    for i := 0 to |data|
      invariant Fnv(data[i..], hash) == Fnv(data, seed)
    {
      assert data[i..][1..] == data[i + 1..];
      hash := Mixed(hash, data[i]);
    }
  }

  lemma XorUnrolled(a: nat, b: nat, n: nat)
    requires n > 0
    ensures Xor(a, b, n) == (a + b) % 2 + 2 * Xor(a / 2, b / 2, n - 1)
    ensures Xor(a, b, 0) == 0
  {
  }

  lemma LetterMeetsBasis()
    ensures Xor(0x25, 0x61, 8) == 0x44
  {
    hide Xor;
    XorUnrolled(0, 0, 1);
    XorUnrolled(0, 1, 2);
    XorUnrolled(1, 3, 3);
    XorUnrolled(2, 6, 4);
    XorUnrolled(4, 12, 5);
    XorUnrolled(9, 24, 6);
    XorUnrolled(18, 48, 7);
    XorUnrolled(37, 97, 8);
  }

  lemma LetterMixed()
    ensures Mixed(BASIS, 0x61) == 0xAF63_DC4C_8601_EC8C
  {
    hide Xor;
    LetterMeetsBasis();
    assert BASIS % 256 == 0x25 && BASIS / 256 * 256 == BASIS - 0x25;
    assert Blended(BASIS, 0x61) == 0xCBF2_9CE4_8422_2344;
  }

  /** The published values of the function for no bytes and for the letter a. */
  lemma KnownHashes()
    ensures Fnv([], BASIS) == 0xCBF2_9CE4_8422_2325
    ensures Fnv([0x61], BASIS) == 0xAF63_DC4C_8601_EC8C
  {
    hide Mixed;
    LetterMixed();
    var a: seq<byte> := [0x61];
    assert a[1..] == [];
  }

  lemma {:induction false} XorIsInjective(a: nat, b: nat, c: nat, n: nat)
    requires a < Pow2(n) && b < Pow2(n) && Xor(a, c, n) == Xor(b, c, n)
    ensures a == b
  {
    if n > 0 { XorIsInjective(a / 2, b / 2, c / 2, n - 1); }
  }

  lemma {:induction false} XorCommutes(a: nat, b: nat, n: nat)
    ensures Xor(a, b, n) == Xor(b, a, n)
  {
    if n > 0 { XorCommutes(a / 2, b / 2, n - 1); }
  }

  lemma {:induction false} XorIsSmall(a: nat, b: nat, n: nat)
    ensures Xor(a, b, n) < Pow2(n)
  {
    if n > 0 { XorIsSmall(a / 2, b / 2, n - 1); }
  }

  /** The prime is odd, so multiplying by it loses nothing modulo 2^64: it has an inverse. */
  lemma ProductIsInjective(x: nat, y: nat)
    requires x < WORD && y < WORD && x * PRIME % WORD == y * PRIME % WORD
    ensures x == y
  {
    Inverted(x);
    Inverted(y);
  }

  const INVERSE: nat := 0xCE96_5057_AFF6_957B

  lemma Inverted(x: nat)
    requires x < WORD
    ensures (x * PRIME % WORD) * INVERSE % WORD == x
  {
    var q, r := x * PRIME / WORD, x * PRIME % WORD;
    assert x * PRIME == q * WORD + r;
    var c := PRIME * INVERSE / WORD;
    assert PRIME * INVERSE == c * WORD + 1;
    assert r * INVERSE == (c * x - q * INVERSE) * WORD + x;
    Remainder(c * x - q * INVERSE, x, r * INVERSE);
  }

  lemma Remainder(k: int, x: nat, n: nat)
    requires n == k * WORD + x && x < WORD
    ensures n % WORD == x
  {
  }

  lemma MixedStaysInWord(hash: nat, b: byte)
    ensures Mixed(hash, b) < WORD
  {
  }

  lemma EightBits()
    ensures Pow2(8) == 256
  {
    assert Pow2(8) == 4 * Pow2(6) == 16 * Pow2(4);
  }

  lemma LowByte(q: nat, low: nat)
    requires low < 256
    ensures (q * 256 + low) / 256 == q && (q * 256 + low) % 256 == low
  {
  }

  lemma BlendedParts(hash: nat, b: byte)
    requires hash < WORD
    ensures Blended(hash, b) < WORD
    ensures Blended(hash, b) / 256 == hash / 256
    ensures Blended(hash, b) % 256 == Xor(hash % 256, b, 8)
  {
    hide Xor, Pow2;
    EightBits();
    XorIsSmall(hash % 256, b, 8);
    var q, low := hash / 256, Xor(hash % 256, b, 8);
    LowByte(q, low);
    assert q <= (WORD - 1) / 256;
    assert q * 256 + low <= (WORD - 1) / 256 * 256 + 255;
  }

  lemma MixedHashIsInjective(h1: nat, h2: nat, b: byte)
    requires h1 < WORD && h2 < WORD && Mixed(h1, b) == Mixed(h2, b)
    ensures h1 == h2
  {
    hide Xor, Pow2;
    EightBits();
    assert Blended(h1, b) * PRIME % WORD == Blended(h2, b) * PRIME % WORD;
    hide Blended, Mixed;
    BlendedParts(h1, b);
    BlendedParts(h2, b);
    ProductIsInjective(Blended(h1, b), Blended(h2, b));
    XorIsInjective(h1 % 256, h2 % 256, b, 8);
  }

  lemma MixedByteIsInjective(h: nat, b1: byte, b2: byte)
    requires h < WORD && Mixed(h, b1) == Mixed(h, b2)
    ensures b1 == b2
  {
    hide Xor, Pow2;
    EightBits();
    assert Blended(h, b1) * PRIME % WORD == Blended(h, b2) * PRIME % WORD;
    hide Blended, Mixed;
    BlendedParts(h, b1);
    BlendedParts(h, b2);
    ProductIsInjective(Blended(h, b1), Blended(h, b2));
    XorCommutes(h % 256, b1, 8);
    XorCommutes(h % 256, b2, 8);
    XorIsInjective(b1, b2, h % 256, 8);
  }

  /** Different hashes stay different under the same bytes. */
  lemma {:induction false} FnvKeepsDifference(data: seq<byte>, h1: nat, h2: nat)
    requires h1 < WORD && h2 < WORD && h1 != h2
    ensures Fnv(data, h1) != Fnv(data, h2)
  {
    hide Mixed;
    if data != [] {
      MixedStaysInWord(h1, data[0]);
      MixedStaysInWord(h2, data[0]);
      if Mixed(h1, data[0]) == Mixed(h2, data[0]) { MixedHashIsInjective(h1, h2, data[0]); }
      FnvKeepsDifference(data[1..], Mixed(h1, data[0]), Mixed(h2, data[0]));
    }
  }

  lemma {:induction false} FnvStaysInWord(data: seq<byte>, h: nat)
    requires h < WORD
    ensures Fnv(data, h) < WORD
  {
    hide Mixed;
    if data != [] {
      MixedStaysInWord(h, data[0]);
      FnvStaysInWord(data[1..], Mixed(h, data[0]));
    }
  }

  /** `other` is `data` with one byte replaced by a different one. */
  ghost predicate Substituted(data: seq<byte>, other: seq<byte>, i: nat) {
    && |other| == |data| && i < |data| && other[i] != data[i]
    && forall j :: 0 <= j < |data| && j != i ==> other[j] == data[j]
  }

  /** No single-byte substitution goes unnoticed. */
  lemma {:induction false} FnvCatchesSubstitution(data: seq<byte>, other: seq<byte>, i: nat, h: nat)
    requires h < WORD && Substituted(data, other, i)
    ensures Fnv(data, h) != Fnv(other, h)
    decreases i
  {
    hide Mixed;
    MixedStaysInWord(h, data[0]);
    MixedStaysInWord(h, other[0]);
    if i == 0 {
      assert data[1..] == other[1..];
      if Mixed(h, data[0]) == Mixed(h, other[0]) { MixedByteIsInjective(h, data[0], other[0]); }
      FnvKeepsDifference(data[1..], Mixed(h, data[0]), Mixed(h, other[0]));
    } else {
      assert data[0] == other[0];
      FnvCatchesSubstitution(data[1..], other[1..], i - 1, Mixed(h, data[0]));
    }
  }

  // ----- little-endian words -----------------------------------------------

  function Range(n: nat): (p: nat)
    ensures p > 0
  {
    if n == 0 then 1 else 256 * Range(n - 1)
  }

  function Word(v: nat, n: nat): (w: seq<byte>)
    ensures |w| == n
  {
    if n == 0 then [] else [v % 256] + Word(v / 256, n - 1)
  }

  function Number(w: seq<byte>): nat { if w == [] then 0 else w[0] + 256 * Number(w[1..]) }

  lemma {:induction false} NumberOfWord(v: nat, n: nat)
    requires v < Range(n)
    ensures Number(Word(v, n)) == v
  {
    if n > 0 {
      NumberOfWord(v / 256, n - 1);
      assert Word(v, n)[1..] == Word(v / 256, n - 1);
    }
  }

  lemma {:induction false} NumberIsInjective(a: seq<byte>, b: seq<byte>)
    requires |a| == |b| && Number(a) == Number(b)
    ensures a == b
  {
    if a != [] {
      assert a[0] == b[0];
      NumberIsInjective(a[1..], b[1..]);
      assert a == [a[0]] + a[1..] && b == [b[0]] + b[1..];
    }
  }

  lemma WordFits()
    ensures Range(8) == WORD && Range(4) == 0x1_0000_0000
  {
    assert Range(4) == 256 * Range(3) == 65536 * Range(2);
    assert Range(8) == 256 * Range(7) == 65536 * Range(6);
    assert Range(6) == 256 * Range(5) == 65536 * Range(4);
  }

  method AppendLittleEndian(out: seq<byte>, value: nat, n: nat) returns (r: seq<byte>)
    ensures r == out + Word(value, n)
  {
    r := out;
    var rest := value;
    for i := 0 to n
      invariant r + Word(rest, n - i) == out + Word(value, n)
    {
      assert Word(rest, n - i) == [rest % 256] + Word(rest / 256, n - i - 1);
      r := r + [rest % 256];
      rest := rest / 256;
    }
  }

  method ReadLittleEndian(bytes: seq<byte>) returns (value: nat)
    ensures value == Number(bytes)
  {
    value := 0;
    var scale: nat := 1;
    for i := 0 to |bytes|
      invariant value + scale * Number(bytes[i..]) == Number(bytes)
    {
      assert bytes[i..][1..] == bytes[i + 1..];
      ScaleStep(scale, bytes[i], Number(bytes[i + 1..]));
      value := value + scale * bytes[i];
      scale := scale * 256;
    }
  }

  lemma ScaleStep(scale: nat, b: nat, rest: nat)
    ensures scale * (b + 256 * rest) == scale * b + (scale * 256) * rest
  {
  }
}
