/**
 * MurmurHash2 as the Kafka default partitioner computes it, with Kafka's seed and
 * Kafka's `toPositive` mask applied to the result.
 *
 * Two definitions are related here.
 *  - The 32-bit reference (`Murmur2`), written the way Austin Appleby's C code is
 *    structured: consume 4-byte little-endian words while at least four bytes remain,
 *    fold the 0-3 trailing bytes in with a fall-through switch, then avalanche. A 32-bit
 *    word is a natural number below 2^32 and every multiply wraps (`Mul32`).
 *  - `Compute`, the repository's loop as written: unbounded non-negative integers (the
 *    values are JavaScript BigInts and never negative), bitwise XOR and AND on them, a
 *    multiply that is never masked, and the `unsignedShiftRight` helper.
 * `Compute` is proved to return the reference hash: only the low 32 bits of its
 * unbounded accumulators ever influence the result.
 */
module Murmur2 {

  /** The seed Kafka passes to MurmurHash2. */
  const Seed: nat := 0x9747_b28c
  /** The multiplicative mixing constant. */
  const M: nat := 0x5bd1_e995
  /** The shift used when mixing a word. */
  const R: nat := 24
  /** The number of distinct 32-bit words. */
  const Two32: nat := 0x1_0000_0000

  type Byte = b: nat | b < 0x100

  // ----- Bit operations on non-negative integers -----

  /** 2 to the power `n`. */
  function Pow2(n: nat): (r: nat)
    ensures r >= 1
  {
    if n == 0 then 1 else 2 * Pow2(n - 1)
  }

  /** Bitwise exclusive or. */
  function Xor(a: nat, b: nat): nat
    decreases a + b
  {
    if a == 0 && b == 0 then 0
    else (if a % 2 == b % 2 then 0 else 1) + 2 * Xor(a / 2, b / 2)
  }

  /** Bitwise and. */
  function And(a: nat, b: nat): nat
    decreases a + b
  {
    if a == 0 && b == 0 then 0
    else (if a % 2 == 1 && b % 2 == 1 then 1 else 0) + 2 * And(a / 2, b / 2)
  }

  /** The low 32 bits. */
  function Low32(x: nat): (r: nat)
    ensures r < Two32
  {
    x % Two32
  }

  /** A 32-bit multiply: the product wraps around modulo 2^32. */
  function Mul32(a: nat, b: nat): (r: nat)
    ensures r < Two32
  {
    (a * b) % Two32
  }

  /** A logical right shift. */
  function Shr(x: nat, n: nat): nat {
    DivIsNat(x, Pow2(n));
    x / Pow2(n)
  }

  /** A left shift; nothing is shifted out of an unbounded integer. */
  function Shl(x: nat, n: nat): nat {
    MulIsNat(x, Pow2(n));
    x * Pow2(n)
  }

  // ----- From a key string to the bytes that are hashed -----

  /**
   * The first UTF-16 code unit of a code point, which is what `charCodeAt(0)` returns
   * for the one-code-point strings that `Array.from` yields: the code point itself in
   * the basic plane, its high surrogate otherwise.
   */
  function CodeUnit(c: char): (u: nat)
    ensures u < 0x1_0000
    ensures c as int < 0x1_0000 ==> u == c as int
    ensures c as int >= 0x1_0000 ==> 0xD800 <= u < 0xDC00
    ensures c as int >= 0x1_0000 ==> 0x1_0000 + (u - 0xD800) * 0x400 <= c as int < 0x1_0000 + (u - 0xD800 + 1) * 0x400
  {
    if c as int < 0x1_0000 then c as int else 0xD800 + (c as int - 0x1_0000) / 0x400
  }

  /** The code units `Array.from(value).map(c => c.charCodeAt(0))` yields: one per code point. */
  function CodeUnits(s: string): (u: seq<nat>)
    ensures |u| == |s|
  {
    seq(|s|, i requires 0 <= i < |s| => CodeUnit(s[i]))
  }

  /** The low 8 bits of each value. */
  function LowBytes(codes: seq<nat>): (b: seq<Byte>)
    ensures |b| == |codes|
    ensures forall i :: 0 <= i < |codes| ==> b[i] == codes[i] % 0x100
  {
    seq(|codes|, i requires 0 <= i < |codes| => codes[i] % 0x100)
  }

  /** The bytes hashed for a key: the low 8 bits of the first code unit of each code point. */
  function KeyBytes(s: string): (b: seq<Byte>)
    ensures |b| == |s|
  {
    LowBytes(CodeUnits(s))
  }

  // ----- The 32-bit reference -----

  /** The little-endian 32-bit word of four bytes. */
  function Word(b0: Byte, b1: Byte, b2: Byte, b3: Byte): (w: nat)
    ensures w < Two32
  {
    b0 + 0x100 * b1 + 0x1_0000 * b2 + 0x100_0000 * b3
  }

  /** Mixing one word `k` into the accumulator `h`. */
  function MixWord(h: nat, k: nat): (r: nat)
    requires h < Two32 && k < Two32
    ensures r < Two32
  {
    var k1 := Mul32(k, M);
    XorBound(k1, Shr(k1, R));
    var k2 := Xor(k1, Shr(k1, R));
    var k3 := Mul32(k2, M);
    XorBound(Mul32(h, M), k3);
    Xor(Mul32(h, M), k3)
  }

  /** The little-endian words of `data`, as many as fit; the 0-3 trailing bytes are not part of any. */
  function Words(data: seq<Byte>): (ws: seq<nat>)
    ensures |ws| == |data| / 4
  {
    seq(|data| / 4, i requires 0 <= i < |data| / 4 =>
      WordAt(data, i))
  }

  /** The `i`-th little-endian word of `data`. */
  function WordAt(data: seq<Byte>, i: nat): (w: nat)
    requires i < |data| / 4
    ensures w < Two32
  {
    Word(data[4 * i], data[4 * i + 1], data[4 * i + 2], data[4 * i + 3])
  }

  /** The accumulator after mixing in each of the words, first to last. */
  function Body(h: nat, words: seq<nat>): (r: nat)
    requires h < Two32
    requires forall i :: 0 <= i < |words| ==> words[i] < Two32
    ensures r < Two32
    decreases |words|
  {
    if words == [] then h
    else MixWord(Body(h, words[..|words| - 1]), words[|words| - 1])
  }

  /** Folding the trailing bytes in: the fall-through switch of the reference, one multiply at the end. */
  function Tail(h: nat, tail: seq<Byte>): (r: nat)
    requires h < Two32 && |tail| < 4
    ensures r < Two32
  {
    match |tail|
    case 0 => h
    case 1 => Mul32(Xor(h, tail[0]), M)
    case 2 => Mul32(Xor(Xor(h, 0x100 * (tail[1] as nat)), tail[0]), M)
    case 3 => Mul32(Xor(Xor(Xor(h, 0x1_0000 * (tail[2] as nat)), 0x100 * (tail[1] as nat)), tail[0]), M)
  }

  /** The final avalanche. */
  function Avalanche(h: nat): (r: nat)
    requires h < Two32
    ensures r < Two32
  {
    XorBound(h, Shr(h, 13));
    var h1 := Xor(h, Shr(h, 13));
    var h2 := Mul32(h1, M);
    XorBound(h2, Shr(h2, 15));
    Xor(h2, Shr(h2, 15))
  }

  /** The bytes left over after the last whole word. */
  function TrailingBytes(data: seq<Byte>): (t: seq<Byte>)
    ensures |t| == |data| % 4 && t == data[|data| - |data| % 4..]
  {
    data[|data| - |data| % 4..]
  }

  /** MurmurHash2 of a byte sequence with Kafka's seed, as a 32-bit word. */
  function Murmur2(data: seq<Byte>): (r: nat)
    ensures r < Two32
  {
    XorBound(Seed, Low32(|data|));
    Avalanche(Tail(Body(Xor(Seed, Low32(|data|)), Words(data)), TrailingBytes(data)))
  }

  /** Kafka's `toPositive`: clear the sign bit of the 32-bit result. */
  function ToPositive(x: nat): (r: nat)
    ensures r < 0x8000_0000 && r == x % 0x8000_0000
  {
    Pow2Values();
    AndLowMask(x, 31);
    And(x, 0x7fff_ffff)
  }

  /** The value `compute` returns for a key. */
  function Hash(key: string): (r: nat)
    ensures r < 0x8000_0000
  {
    ToPositive(Murmur2(KeyBytes(key)))
  }

  // ----- The repository's loop -----

  /**
   * `unsignedShiftRight(amount, value)`: shift right by `amount`, then AND with the mask
   * `(1 << (32 - amount)) - 1`. The mask is computed with JavaScript's 32-bit `<<`, which
   * gives `2^(32 - amount) - 1` exactly when `2 <= amount <= 32`; only 13, 15 and 24 occur.
   */
  function UnsignedShiftRight(amount: nat, value: nat): (r: nat)
    requires 2 <= amount <= 32
    ensures r == Shr(value, amount) % Pow2(32 - amount) && r < Pow2(32 - amount)
  {
    AndLowMask(Shr(value, amount), 32 - amount);
    And(Shr(value, amount), Pow2(32 - amount) - 1)
  }

  /** The word the inner loop has assembled after adding the first `j` bytes at `at`. */
  function PartialWord(data: seq<Byte>, at: nat, j: nat): nat
    requires j <= 4 && at + j <= |data|
  {
    if j == 0 then 0
    else PartialWord(data, at, j - 1) + Shl(data[at + j - 1], (j - 1) * 8)
  }

  /** The accumulator's low word after the tail loop has XORed in the trailing bytes from index `lo` upwards. */
  function XorTail(h: nat, tail: seq<Byte>, lo: nat): nat
    requires |tail| < 4
    decreases |tail| - lo
  {
    if lo >= |tail| then h
    else Xor(XorTail(h, tail, lo + 1), Shl(tail[lo], lo * 8))
  }

  /**
   * `compute`: the code units of the key, the accumulator seeded with `seed ^ length`, the
   * word loops, the tail loop and the final avalanche and sign mask, on unbounded integers.
   * The three phases are the methods below, in the order the function runs them.
   */
  method Compute(value: string) returns (hash: nat)
    ensures hash == Hash(value)
    ensures hash < 0x8000_0000
  {
    var bytes := CodeUnits(value);
    var length := |bytes|;
    var h: nat := Xor(Seed, length);
    assert Low32(h) == Xor(Seed, Low32(length)) by {
      XorLowBits32(Seed, length);
      LowOfWord(Seed);
    }
    h := MixWords(bytes, h);
    h := MixTrailingBytes(bytes, h);
    hash := Finish(h);
  }

  /**
   * The nested word loops of `compute`: for each whole group of four bytes, assemble the
   * little-endian word `k`, then `k *= m; k ^= unsignedShiftRight(r, k); k *= m; h *= m; h ^= k`.
   */
  method MixWords(bytes: seq<nat>, h: nat) returns (h': nat)
    ensures Low32(h') == Body(Low32(h), Words(LowBytes(bytes)))
  {
    ghost var data := LowBytes(bytes);
    ghost var h0 := Low32(h);
    var length := |bytes|;
    var lengthDiv4 := length / 4;
    h' := h;
    for i := 0 to lengthDiv4
      invariant Low32(h') == Body(h0, Words(data)[..i])
    {
      var k := ReadWord(bytes, i);
      ghost var hPrev, w := h', k;
      k := k * M;
      k := Xor(k, UnsignedShiftRight(R, k));
      k := k * M;
      h' := h' * M;
      h' := Xor(h', k);
      assert Low32(h') == Body(h0, Words(data)[..i + 1]) by {
        MixAgrees(hPrev, w);
        BodyStep(h0, Words(data), i);
      }
    }
    assert Words(data)[..lengthDiv4] == Words(data);
  }

  /**
   * The inner loop of `compute`: `k += (bytes[i4 + j] & 0xff) << (j * 8)` for `j` from 0 to 3,
   * with `i4 = i * 4`.
   */
  method ReadWord(bytes: seq<nat>, i: nat) returns (k: nat)
    requires i < |bytes| / 4
    ensures k == Words(LowBytes(bytes))[i]
  {
    ghost var data := LowBytes(bytes);
    var i4 := i * 4;
    k := 0;
    for j := 0 to 4
      invariant k == PartialWord(data, i4, j)
    {
      assert And(bytes[i4 + j], 0xff) == data[i4 + j] by { LowByte(bytes[i4 + j]); }
      k := k + Shl(And(bytes[i4 + j], 0xff), j * 8);
    }
    WordOfPartial(data, i);
  }

  /**
   * The tail loop of `compute`: from `i = length % 4` down to 1, XOR in the byte at
   * `(length & ~3) + (i - 1)` shifted by `(i - 1) * 8`, and multiply by `m` when `i == 1`.
   * `length & ~3` is written `length - length % 4`, which it equals for every length
   * below 2^31.
   */
  method MixTrailingBytes(bytes: seq<nat>, h: nat) returns (h': nat)
    ensures Low32(h') == Tail(Low32(h), TrailingBytes(LowBytes(bytes)))
  {
    ghost var hb := Low32(h);
    ghost var tail := TrailingBytes(LowBytes(bytes));
    var length := |bytes|;
    h' := h;
    var i := length % 4;
    while i > 0
      invariant 0 <= i <= |tail|
      invariant i > 0 || |tail| == 0 ==> Low32(h') == XorTail(hb, tail, i)
      invariant i == 0 && |tail| > 0 ==> Low32(h') == Mul32(XorTail(hb, tail, 0), M)
    {
      assert And(bytes[(length - length % 4) + (i - 1)], 0xff) == tail[i - 1] by {
        LowByte(bytes[(length - length % 4) + (i - 1)]);
      }
      ghost var hPrev := h';
      h' := Xor(h', Shl(And(bytes[(length - length % 4) + (i - 1)], 0xff), (i - 1) * 8));
      assert Low32(h') == XorTail(hb, tail, i - 1) by { TailByteAgrees(hPrev, tail, i - 1); }
      if i == 1 {
        ghost var hx := h';
        h' := h' * M;
        assert Low32(h') == Mul32(XorTail(hb, tail, 0), M) by { MulLow32(hx, M); LowOfWord(M); }
      }
      i := i - 1;
    }
    TailLoop(hb, tail);
  }

  /** The avalanche `h ^= h >>> 13; h *= m; h ^= h >>> 15` and the mask `h & 0x7fffffff`. */
  method Finish(h: nat) returns (hash: nat)
    ensures hash == ToPositive(Avalanche(Low32(h)))
  {
    var x := h;
    x := Xor(x, UnsignedShiftRight(13, x));
    x := x * M;
    x := Xor(x, UnsignedShiftRight(15, x));
    assert Low32(x) == Avalanche(Low32(h)) by { AvalancheAgrees(h); }
    hash := And(x, 0x7fff_ffff);
    assert hash == Low32(x) % 0x8000_0000 by {
      Pow2Values();
      AndLowMask(x, 31);
      LowOfLow(x);
    }
  }

  // ----- Why only the low 32 bits matter -----

  /** One word step of the loop on unbounded integers agrees with `MixWord` on the low 32 bits. */
  lemma MixAgrees(h: nat, k: nat)
    requires k < Two32
    ensures var k1 := k * M;
            var k2 := Xor(k1, UnsignedShiftRight(R, k1));
            Low32(Xor(h * M, k2 * M)) == MixWord(Low32(h), k)
  {
    var k1 := k * M;
    var k2 := Xor(k1, UnsignedShiftRight(R, k1));
    MulLow32(k, M);
    assert Low32(k1) == Mul32(k, M);
    ShiftXorLow(R, k1);
    assert Low32(k2) == Xor(Mul32(k, M), Shr(Mul32(k, M), R));
    MulLow32(k2, M);
    MulLow32(h, M);
    XorLowBits32(h * M, k2 * M);
  }

  /** `x ^ unsignedShiftRight(s, x)` agrees with `x ^ (x >> s)` on the low 32 bits. */
  lemma ShiftXorLow(n: nat, x: nat)
    requires 2 <= n <= 32
    ensures Low32(Xor(x, UnsignedShiftRight(n, x))) == Xor(Low32(x), Shr(Low32(x), n))
  {
    var s := UnsignedShiftRight(n, x);
    UnsignedShiftRightIsLogicalShift(n, x);
    assert s == Shr(Low32(x), n);
    ShrBound(Low32(x), n);
    LowOfWord(s);
    XorLowBits32(x, s);
  }

  lemma LowOfWord(x: nat)
    requires x < Two32
    ensures Low32(x) == x
  {
  }

  /** One step of the tail loop agrees with `XorTail` on the low 32 bits. */
  lemma TailByteAgrees(h: nat, tail: seq<Byte>, j: nat)
    requires j < |tail| < 4
    ensures Low32(Xor(h, Shl(tail[j], j * 8))) == Xor(Low32(h), Shl(tail[j], j * 8))
  {
    var t := Shl(tail[j], j * 8);
    assert t < Two32 by {
      Pow2Bytes(j);
      MulMono(tail[j], Pow2(j * 8), 0x100_0000);
    }
    XorLowBits32(h, t);
    LowOfWord(t);
  }

  /** The avalanche on unbounded integers agrees with `Avalanche` on the low 32 bits. */
  lemma AvalancheAgrees(h: nat)
    ensures var h1 := Xor(h, UnsignedShiftRight(13, h));
            var h2 := h1 * M;
            Low32(Xor(h2, UnsignedShiftRight(15, h2))) == Avalanche(Low32(h))
  {
    var h1 := Xor(h, UnsignedShiftRight(13, h));
    ShiftXorLow(13, h);
    var h2 := h1 * M;
    MulLow32(h1, M);
    assert Low32(h2) == Mul32(Xor(Low32(h), Shr(Low32(h), 13)), M);
    ShiftXorLow(15, h2);
  }

  lemma LowOfLow(x: nat)
    ensures Low32(x) % 0x8000_0000 == x % 0x8000_0000
  {
    var q, r := x / Two32, x % Two32;
    assert x == 0x8000_0000 * (2 * q) + r;
    DivModUnique(r, 0x8000_0000, r / 0x8000_0000, r % 0x8000_0000);
    DivModUnique(x, 0x8000_0000, 2 * q + r / 0x8000_0000, r % 0x8000_0000);
  }

  lemma ShrBound(x: nat, n: nat)
    requires x < Two32
    ensures Shr(x, n) < Two32
  {
    assert x / Pow2(n) <= x;
  }

  /** The low 32 bits of an XOR are the XOR of the low 32 bits. */
  lemma XorLowBits32(a: nat, b: nat)
    ensures Low32(Xor(a, b)) == Xor(Low32(a), Low32(b))
  {
    Pow2Values();
    XorLowBits(a, b, 32);
  }

  /** The low 32 bits of a product depend only on the low 32 bits of the factors. */
  lemma MulLow32(a: nat, b: nat)
    ensures Low32(a * b) == Mul32(Low32(a), Low32(b))
  {
    var qa, ra := a / Two32, a % Two32;
    var qb, rb := b / Two32, b % Two32;
    assert a * b == Two32 * (qa * b + ra * qb) + ra * rb by {
      assert a == Two32 * qa + ra;
      assert b == Two32 * qb + rb;
      assert a * b == (Two32 * qa + ra) * b;
      assert (Two32 * qa + ra) * b == Two32 * (qa * b) + ra * b;
      assert ra * b == ra * (Two32 * qb + rb) == Two32 * (ra * qb) + ra * rb;
    }
    ModMultipleAdd(Two32, qa * b + ra * qb, ra * rb);
  }

  lemma ModMultipleAdd(d: nat, q: nat, x: nat)
    requires d > 0
    ensures (d * q + x) % d == x % d
  {
    var q', r' := x / d, x % d;
    assert d * q + x == d * (q + q') + r';
    DivModUnique(d * q + x, d, q + q', r');
  }

  lemma XorUnfold(a: nat, b: nat)
    ensures Xor(a, b) == (if a % 2 == b % 2 then 0 else 1) + 2 * Xor(a / 2, b / 2)
  {
  }

  lemma HalfSplit(x: nat, m: nat)
    requires m >= 1
    ensures var y := x % (2 * m); y % 2 == x % 2 && y / 2 == (x / 2) % m
  {
    ModTwice(x, m);
  }

  lemma {:induction false} XorLowBits(a: nat, b: nat, n: nat)
    ensures Xor(a, b) % Pow2(n) == Xor(a % Pow2(n), b % Pow2(n))
    decreases n
  {
    if n > 0 {
      var m := Pow2(n - 1);
      assert Pow2(n) == 2 * m;
      var a', b' := a % (2 * m), b % (2 * m);
      XorLowBits(a / 2, b / 2, n - 1);
      XorUnfold(a, b);
      XorUnfold(a', b');
      HalfSplit(a, m);
      HalfSplit(b, m);
      ModTwice(Xor(a, b), m);
      var x := Xor(a, b);
      assert x % 2 == (if a % 2 == b % 2 then 0 else 1) && x / 2 == Xor(a / 2, b / 2);
    }
  }

  lemma {:induction false} XorBound(a: nat, b: nat)
    requires a < Two32 && b < Two32
    ensures Xor(a, b) < Two32
  {
    Pow2Values();
    XorBoundPow2(a, b, 32);
  }

  lemma {:induction false} XorBoundPow2(a: nat, b: nat, n: nat)
    requires a < Pow2(n) && b < Pow2(n)
    ensures Xor(a, b) < Pow2(n)
    decreases n
  {
    if n > 0 {
      XorBoundPow2(a / 2, b / 2, n - 1);
    }
  }

  // ----- The word and tail loops compute the reference's word and switch -----

  lemma Pow2Bytes(j: nat)
    requires j < 4
    ensures Pow2(j * 8) == if j == 0 then 1 else if j == 1 then 0x100 else if j == 2 then 0x1_0000 else 0x100_0000
  {
    Pow2Values();
    if j == 0 { assert j * 8 == 0; }
    else if j == 1 { assert j * 8 == 8; }
    else if j == 2 { assert j * 8 == 16; }
    else { assert j * 8 == 24; }
  }

  lemma Pow2Values()
    ensures Pow2(0) == 1 && Pow2(8) == 0x100 && Pow2(13) == 0x2000 && Pow2(15) == 0x8000
    ensures Pow2(16) == 0x1_0000 && Pow2(24) == 0x100_0000 && Pow2(31) == 0x8000_0000
    ensures Pow2(32) == Two32
  {
  }

  /** The four bytes added at their shifts form the little-endian word. */
  lemma WordOfPartial(data: seq<Byte>, i: nat)
    requires i < |data| / 4
    ensures PartialWord(data, 4 * i, 4) == Words(data)[i]
  {
    Pow2Values();
    var at := 4 * i;
    assert PartialWord(data, at, 1) == data[at];
    assert PartialWord(data, at, 2) == data[at] + (data[at + 1] as nat) * 0x100;
    assert PartialWord(data, at, 3) == data[at] + (data[at + 1] as nat) * 0x100 + (data[at + 2] as nat) * 0x1_0000;
  }

  /** Mixing in one more word extends the fold by one. */
  lemma BodyStep(h: nat, words: seq<nat>, i: nat)
    requires h < Two32 && i < |words|
    requires forall j :: 0 <= j < |words| ==> words[j] < Two32
    ensures Body(h, words[..i + 1]) == MixWord(Body(h, words[..i]), words[i])
  {
    assert words[..i + 1][..i] == words[..i];
  }

  /** `x & 0xff` keeps the low byte. */
  lemma LowByte(x: nat)
    ensures And(x, 0xff) == x % 0x100
  {
    Pow2Values();
    AndLowMask(x, 8);
  }

  /** The downward tail loop, with its multiply at `i == 1`, computes the fall-through switch. */
  lemma TailLoop(h: nat, tail: seq<Byte>)
    requires h < Two32 && |tail| < 4
    ensures Tail(h, tail) == if |tail| == 0 then h else Mul32(XorTail(h, tail, 0), M)
  {
    Pow2Values();
    var n := |tail|;
    if n == 1 {
      assert XorTail(h, tail, 0) == Xor(h, tail[0]);
    } else if n == 2 {
      assert XorTail(h, tail, 1) == Xor(h, (tail[1] as nat) * 0x100);
      assert XorTail(h, tail, 0) == Xor(Xor(h, (tail[1] as nat) * 0x100), tail[0]);
    } else if n == 3 {
      assert XorTail(h, tail, 2) == Xor(h, (tail[2] as nat) * 0x1_0000);
      assert XorTail(h, tail, 1) == Xor(Xor(h, (tail[2] as nat) * 0x1_0000), (tail[1] as nat) * 0x100);
      assert XorTail(h, tail, 0) == Xor(Xor(Xor(h, (tail[2] as nat) * 0x1_0000), (tail[1] as nat) * 0x100), tail[0]);
    }
  }

  // ----- The unbounded-integer helper -----

  lemma {:induction false} Pow2Add(a: nat, b: nat)
    ensures Pow2(a + b) == Pow2(a) * Pow2(b)
    decreases a
  {
    if a > 0 {
      Pow2Add(a - 1, b);
    }
  }

  /** AND with `2^n - 1` keeps the remainder modulo `2^n`. */
  lemma {:induction false} AndLowMask(x: nat, n: nat)
    ensures And(x, Pow2(n) - 1) == x % Pow2(n)
    decreases n
  {
    if n == 0 {
      AndZero(x);
    } else {
      var m := Pow2(n - 1);
      assert (Pow2(n) - 1) % 2 == 1 && (Pow2(n) - 1) / 2 == m - 1;
      AndLowMask(x / 2, n - 1);
      ModTwice(x, m);
    }
  }

  lemma {:induction false} AndZero(x: nat)
    ensures And(x, 0) == 0
    decreases x
  {
    if x > 0 {
      AndZero(x / 2);
    }
  }

  lemma ModTwice(x: nat, m: nat)
    requires m >= 1
    ensures x % (2 * m) == x % 2 + 2 * ((x / 2) % m)
  {
    var q := (x / 2) / m;
    var s := (x / 2) % m;
    assert x / 2 == q * m + s;
    assert x == (2 * m) * q + (x % 2 + 2 * s);
    assert 0 <= x % 2 + 2 * s < 2 * m;
    DivModUnique(x, 2 * m, q, x % 2 + 2 * s);
  }

  lemma DivModUnique(x: int, d: int, q: int, r: int)
    requires d > 0 && 0 <= r < d && x == d * q + r
    ensures x % d == r && x / d == q
  {
    var q', r' := x / d, x % d;
    assert d * q' + r' == d * q + r;
    assert d * (q - q') == r' - r;
    if q > q' {
      MulAtLeast(d, q - q');
    } else if q < q' {
      MulAtLeast(d, q' - q);
    }
  }

  lemma MulAtLeast(d: int, n: int)
    requires d > 0 && n >= 1
    ensures d * n >= d
  {
  }

  /**
   * The helper is a logical right shift of the low 32 bits:
   * `unsignedShiftRight(a, v) == (v mod 2^32) >> a`.
   */
  lemma UnsignedShiftRightIsLogicalShift(amount: nat, value: nat)
    requires 2 <= amount <= 32
    ensures UnsignedShiftRight(amount, value) == Shr(Low32(value), amount)
  {
    var d, e := Pow2(amount), Pow2(32 - amount);
    assert d * e == Two32 by {
      Pow2Add(amount, 32 - amount);
      Pow2Values();
    }
    AndLowMask(value / d, 32 - amount);
    assert UnsignedShiftRight(amount, value) == (value / d) % e;
    DivThenMod(value, d, e);
  }

  /** Shifting right by `d` and keeping `e` values is keeping `d * e` values, then shifting. */
  lemma DivThenMod(x: nat, d: nat, e: nat)
    requires d > 0 && e > 0
    ensures (x / d) % e == (x % (d * e)) / d
  {
    var q, r := x / (d * e), x % (d * e);
    var rq, rr := r / d, r % d;
    assert x == (d * e) * q + r;
    assert r == d * rq + rr;
    assert (d * e) * q == d * (e * q);
    assert x == d * (e * q + rq) + rr;
    DivModUnique(x, d, e * q + rq, rr);
    assert rq < e by {
      if rq >= e {
        MulMono(d, e, rq);
      }
    }
    DivModUnique(e * q + rq, e, q, rq);
  }

  lemma DivIsNat(x: nat, d: nat)
    requires d > 0
    ensures x / d >= 0
  {
  }

  lemma MulIsNat(x: nat, y: nat)
    ensures x * y >= 0
  {
  }

  lemma MulMono(d: nat, e: nat, f: nat)
    requires e <= f
    ensures d * e <= d * f
  {
  }

}
