/** The three string hashes of the Bloom filter, on 64-bit words. */
module Hashes {

  /** The bytes of a `std::string`. */
  type Str = seq<bv8>

  /** 2^64: `size_t` arithmetic wraps at this value. */
  const WORD := 0x1_0000_0000_0000_0000

  /** The value of a `char`, which is signed. */
  function Signed(c: bv8): int {
    if c as int < 128 then c as int else c as int - 256
  }

  function Pow(b: nat, n: nat): nat {
    if n == 0 then 1 else b * Pow(b, n - 1)
  }

  /** The polynomial with the characters as coefficients, highest power first. */
  function Poly(b: nat, s: Str): int {
    if s == [] then 0 else Signed(s[0]) * Pow(b, |s| - 1) + Poly(b, s[1..])
  }

  lemma Horner(c: int, p: int, q: int, r: int)
    ensures c * (p * q) + r * q == (c * p + r) * q
  {
  }

  lemma {:induction false} PowAdd(b: nat, m: nat, n: nat)
    ensures Pow(b, m + n) == Pow(b, m) * Pow(b, n)
  {
    if m > 0 {
      PowAdd(b, m - 1, n);
      Horner(b, Pow(b, m - 1), Pow(b, n), 0);
    }
  }

  /** Concatenation shifts the first polynomial. */
  lemma {:induction false} PolyConcat(b: nat, s: Str, t: Str)
    ensures Poly(b, s + t) == Poly(b, s) * Pow(b, |t|) + Poly(b, t)
  {
    if s == [] {
      assert s + t == t;
    } else {
      assert (s + t)[1..] == s[1..] + t;
      PolyConcat(b, s[1..], t);
      PowAdd(b, |s| - 1, |t|);
      Horner(Signed(s[0]), Pow(b, |s| - 1), Pow(b, |t|), Poly(b, s[1..]));
    }
  }

  lemma PowOne(b: nat)
    ensures Pow(b, 1) == b
  {
    assert Pow(b, 0) == 1;
  }

  lemma PolyOne(b: nat, c: bv8)
    ensures Poly(b, [c]) == Signed(c)
  {
    assert [c][1..] == [] && Pow(b, 0) == 1;
  }

  lemma PolySnoc(b: nat, s: Str, c: bv8)
    ensures Poly(b, s + [c]) == Poly(b, s) * b + Signed(c)
  {
    PolyConcat(b, s, [c]);
    PowOne(b);
    PolyOne(b, c);
  }

  // ------------------------------------------------------------------ wrap-around arithmetic

  lemma ModShift(x: int, k: int)
    ensures (x + k * WORD) % WORD == x % WORD
  {
  }

  /** Reducing before or after a multiplication and an addition is the same. */
  lemma ModMulAdd(a: int, c: int, d: int)
    ensures ((a % WORD) * c + d) % WORD == (a * c + d) % WORD
  {
    var q := a / WORD;
    assert a == q * WORD + a % WORD;
    assert a * c == (q * c) * WORD + (a % WORD) * c by {
      assert (q * WORD) * c == (q * c) * WORD;
      assert (q * WORD + a % WORD) * c == (q * WORD) * c + (a % WORD) * c;
    }
    ModShift((a % WORD) * c + d, q * c);
  }

  lemma ModAdd(a: int, d: int)
    ensures (a + d % WORD) % WORD == (a + d) % WORD
  {
    ModShift(a + d % WORD, d / WORD);
  }

  lemma ModConcat(a: int, p: int, d: int)
    ensures ((a % WORD) * p + d % WORD) % WORD == (a * p + d) % WORD
  {
    ModAdd((a % WORD) * p, d);
    ModMulAdd(a, p, d);
  }

  // ------------------------------------------------------------------ BKDR

  /** The polynomial, multiplied by `k`. */
  function Scaled(b: nat, k: nat, s: Str): int {
    k * Poly(b, s)
  }

  lemma Scale(k: int, x: int, p: int, y: int, xy: int)
    requires xy == x * p + y
    ensures k * xy == (k * x) * p + k * y
  {
  }

  lemma ScaledConcat(b: nat, k: nat, s: Str, t: Str)
    ensures Scaled(b, k, s + t) == Scaled(b, k, s) * Pow(b, |t|) + Scaled(b, k, t)
  {
    PolyConcat(b, s, t);
    Scale(k, Poly(b, s), Pow(b, |t|), Poly(b, t), Poly(b, s + t));
  }

  lemma ScaledMod(b: nat, k: nat, s: Str, t: Str)
    ensures Scaled(b, k, s + t) % WORD == ((Scaled(b, k, s) % WORD) * Pow(b, |t|) + Scaled(b, k, t) % WORD) % WORD
  {
    ScaledConcat(b, k, s, t);
    ModConcat(Scaled(b, k, s), Pow(b, |t|), Scaled(b, k, t));
  }

  /** Closed form of the BKDR hash: every character is multiplied once more than its position says. */
  function BKDR(s: Str): nat {
    Scaled(131, 131, s) % WORD
  }

  method HashBKDR(s: Str) returns (value: nat)
    ensures value == BKDR(s)
  {
    value := 0;
    for i := 0 to |s|
      invariant value == BKDR(s[..i])
    {
      BKDRStep(s[..i], s[i]);
      assert s[..i + 1] == s[..i] + [s[i]];
      value := (value + Signed(s[i])) % WORD;
      value := (value * 131) % WORD;
    }
    assert s[..|s|] == s;
  }

  lemma BKDRStep(s: Str, c: bv8)
    ensures BKDR(s + [c]) == (((BKDR(s) + Signed(c)) % WORD) * 131) % WORD
  {
    var p := Scaled(131, 131, s);
    PolySnoc(131, s, c);
    assert Poly(131, s + [c]) == p + Signed(c);
    ModMulAdd(p, 1, Signed(c));
    ModMulAdd(p + Signed(c), 131, 0);
  }

  /** The BKDR hash of a concatenation from the hashes of the parts. */
  lemma BKDRConcat(s: Str, t: Str)
    ensures BKDR(s + t) == (BKDR(s) * Pow(131, |t|) + BKDR(t)) % WORD
  {
    ScaledMod(131, 131, s, t);
  }

  // ------------------------------------------------------------------ DJB

  /** The polynomial of a hash that starts from `seed`. */
  function Seeded(b: nat, seed: nat, s: Str): int {
    seed * Pow(b, |s|) + Poly(b, s)
  }

  lemma SeededConcat(b: nat, seed: nat, s: Str, t: Str)
    ensures Seeded(b, seed, s + t) == Seeded(b, seed, s) * Pow(b, |t|) + Poly(b, t)
  {
    PolyConcat(b, s, t);
    PowAdd(b, |s|, |t|);
    Horner(seed, Pow(b, |s|), Pow(b, |t|), Poly(b, s));
  }

  lemma SeededMod(b: nat, seed: nat, s: Str, t: Str)
    ensures Seeded(b, seed, s + t) % WORD == ((Seeded(b, seed, s) % WORD) * Pow(b, |t|) + Poly(b, t)) % WORD
  {
    SeededConcat(b, seed, s, t);
    ModMulAdd(Seeded(b, seed, s), Pow(b, |t|), Poly(b, t));
  }

  function DJB(s: Str): nat {
    Seeded(33, 5381, s) % WORD
  }

  /** `hash << 5` on 64 bits. */
  function ShiftLeft5(h: nat): nat {
    (h * 32) % WORD
  }

  method HashDJB(s: Str) returns (hash: nat)
    ensures hash == DJB(s)
  {
    hash := 5381;
    for i := 0 to |s|
      invariant hash == DJB(s[..i])
    {
      DJBStep(s[..i], s[i]);
      assert s[..i + 1] == s[..i] + [s[i]];
      hash := (hash + (ShiftLeft5(hash) + Signed(s[i])) % WORD) % WORD;
    }
    assert s[..|s|] == s;
  }

  lemma DJBStep(s: Str, c: bv8)
    ensures DJB(s + [c]) == (DJB(s) + (ShiftLeft5(DJB(s)) + Signed(c)) % WORD) % WORD
  {
    var h, x := DJB(s), Seeded(33, 5381, s);
    ModAdd(h, ShiftLeft5(h) + Signed(c));
    ModAdd(h + Signed(c), h * 32);
    ModMulAdd(x, 33, Signed(c));
    SeededConcat(33, 5381, s, [c]);
    PowOne(33);
    PolyOne(33, c);
  }

  /** The DJB hash of a concatenation: only the first part carries the seed 5381. */
  lemma DJBConcat(s: Str, t: Str)
    ensures DJB(s + t) == (DJB(s) * Pow(33, |t|) + Poly(33, t)) % WORD
  {
    SeededMod(33, 5381, s, t);
  }

  // ------------------------------------------------------------------ AP

  /** Exclusive or of two words. */
  function WordXor(a: bv64, b: bv64): bv64 {
    a ^ b
  }

  /** The upper 56 bits of a sign-extended negative `char`. */
  const HIGH: bv64 := 0xFFFF_FFFF_FFFF_FF00

  /** A `char` converted to `size_t`: sign extension. */
  function Extend(c: bv8): bv64 {
    if Negative(c) then WithHigh(c as bv64) else c as bv64
  }

  predicate Negative(c: bv8) {
    c & 0x80 != 0
  }

  function WithHigh(w: bv64): bv64 {
    w | HIGH
  }

  /** The value is the signed character modulo 2^64. */
  lemma ExtendValue(c: bv8)
    ensures Extend(c) as int == Signed(c) % WORD
  {
    SignBit(c);
    if Negative(c) {
      HighValue(c as bv64);
    }
  }

  lemma SignBit(c: bv8)
    ensures Negative(c) <==> c as int >= 128
    ensures (c as bv64) as int == c as int
  {
  }

  /** Setting the upper bits of a small word adds their value. */
  lemma HighValue(w: bv64)
    requires w < 256
    ensures WithHigh(w) as int == WORD - 256 + w as int
  {
  }

  lemma SignedAtTheEdge()
    ensures Signed(0) == 0 && Signed(0x7F) == 127 && Signed(0x80) == -128 && Signed(0xFF) == -1
  {
  }

  function APStep(h: bv64, ch: bv64): bv64 {
    h ^ ((h << 7) ^ ch ^ (h >> 3))
  }

  function AP(s: Str): bv64 {
    if s == [] then 0 else APStep(AP(s[..|s| - 1]), Extend(s[|s| - 1]))
  }

  lemma APSnoc(s: Str, c: bv8)
    ensures AP(s + [c]) == APStep(AP(s), Extend(c))
  {
    assert (s + [c])[..|s|] == s;
  }

  /** The other form of the step, for indices with `i % 1 != 0`. */
  function APOtherStep(h: bv64, ch: bv64): bv64 {
    h ^ (!(h << 11) ^ ch ^ (h >> 5))
  }

  /** Every index satisfies `i % 1 == 0`, so the other form is never taken. */
  method HashAP(s: Str) returns (hash: bv64)
    ensures hash == AP(s)
  {
    hash := 0;
    for i := 0 to |s|
      invariant hash == AP(s[..i])
    {
      assert s[..i + 1] == s[..i] + [s[i]];
      APSnoc(s[..i], s[i]);
      var ch := Extend(s[i]);
      hash := if i % 1 == 0 then APStep(hash, ch) else APOtherStep(hash, ch);
    }
    assert s[..|s|] == s;
  }

  function CharXor(c: bv8, d: bv8): bv8 {
    c ^ d
  }

  /** Exclusive or of two strings, character by character. */
  function Xor(s: Str, t: Str): Str
    requires |s| == |t|
  {
    if s == [] then [] else Xor(s[..|s| - 1], t[..|t| - 1]) + [CharXor(s[|s| - 1], t[|t| - 1])]
  }

  lemma WideXor(c: bv8, d: bv8)
    ensures Negative(CharXor(c, d)) <==> Negative(c) != Negative(d)
    ensures CharXor(c, d) as bv64 == WordXor(c as bv64, d as bv64)
    ensures (c as bv64) < 256
  {
  }

  lemma HighBits(c: bv64, d: bv64)
    requires c < 256 && d < 256
    ensures (c | HIGH) ^ (d | HIGH) == c ^ d
    ensures (c | HIGH) ^ d == (c ^ d) | HIGH
    ensures c ^ (d | HIGH) == (c ^ d) | HIGH
  {
  }

  lemma HighXor(c: bv64, d: bv64)
    requires c < 256 && d < 256
    ensures WordXor(WithHigh(c), WithHigh(d)) == WordXor(c, d)
    ensures WordXor(WithHigh(c), d) == WithHigh(WordXor(c, d))
    ensures WordXor(c, WithHigh(d)) == WithHigh(WordXor(c, d))
  {
    HighBits(c, d);
  }

  /** Sign extension commutes with exclusive or. */
  lemma ExtendXor(c: bv8, d: bv8)
    ensures Extend(CharXor(c, d)) == WordXor(Extend(c), Extend(d))
  {
    WideXor(c, d);
    WideXor(d, c);
    HighXor(c as bv64, d as bv64);
    if Negative(c) {
      assert Extend(c) == WithHigh(c as bv64);
    }
  }

  lemma StepXor(h: bv64, g: bv64, c: bv64, d: bv64)
    ensures (h ^ g) ^ (((h ^ g) << 7) ^ (c ^ d) ^ ((h ^ g) >> 3))
         == WordXor(h ^ ((h << 7) ^ c ^ (h >> 3)), g ^ ((g << 7) ^ d ^ (g >> 3)))
  {
  }

  lemma APStepUnfold(h: bv64, c: bv64)
    ensures APStep(h, c) == h ^ ((h << 7) ^ c ^ (h >> 3))
  {
  }

  lemma APStepLinear(h: bv64, g: bv64, c: bv64, d: bv64)
    ensures APStep(h ^ g, c ^ d) == WordXor(APStep(h, c), APStep(g, d))
  {
    APStepUnfold(h, c);
    APStepUnfold(g, d);
    APStepUnfold(h ^ g, c ^ d);
    StepXor(h, g, c, d);
  }

  /** The step is linear. */
  lemma APStepXor(h: bv64, g: bv64, c: bv64, d: bv64)
    ensures APStep(WordXor(h, g), WordXor(c, d)) == WordXor(APStep(h, c), APStep(g, d))
  {
    APStepLinear(h, g, c, d);
  }

  /** The AP hash is linear over exclusive or, for strings of equal length. */
  lemma {:induction false} APXor(s: Str, t: Str)
    requires |s| == |t|
    ensures AP(Xor(s, t)) == WordXor(AP(s), AP(t))
  {
    if s != [] {
      var n := |s| - 1;
      var s', t' := s[..n], t[..n];
      assert s == s' + [s[n]] && t == t' + [t[n]];
      APXor(s', t');
      APSnoc(Xor(s', t'), CharXor(s[n], t[n]));
      APSnoc(s', s[n]);
      APSnoc(t', t[n]);
      ExtendXor(s[n], t[n]);
      APStepXor(AP(s'), AP(t'), Extend(s[n]), Extend(t[n]));
    }
  }

  /** So equal-length strings collide exactly when their exclusive or hashes to zero. */
  lemma APCollision(s: Str, t: Str)
    requires |s| == |t|
    ensures AP(s) == AP(t) <==> AP(Xor(s, t)) == 0
  {
    APXor(s, t);
    XorZero(AP(s), AP(t));
  }

  lemma XorZero(h: bv64, g: bv64)
    ensures WordXor(h, g) == 0 <==> h == g
  {
  }

  // ------------------------------------------------------------------ one key

  /** The six octets of the first key the repository's own program stores. */
  const KEY: Str := [0xE7, 0x8B, 0x97, 0xE8, 0x9B, 0x8B]

  lemma KeyPrefix(i: nat)
    requires i < 6
    ensures KEY[..i + 1] == KEY[..i] + [KEY[i]] && KEY[..0] == [] && KEY[..6] == KEY
  {
  }

  lemma BKDRNext(i: nat, h: int, r: int)
    requires i < 6 && BKDR(KEY[..i]) == h && r == (((h + Signed(KEY[i])) % WORD) * 131) % WORD
    ensures BKDR(KEY[..i + 1]) == r
  {
    KeyPrefix(i);
    BKDRStep(KEY[..i], KEY[i]);
  }

  lemma KeyBKDR()
    ensures BKDR(KEY) == 0xFFFF_88F4_30A6_9013
  {
    KeyPrefix(0);
    var none: Str := [];
    assert BKDR(none) == 0;
    BKDRNext(0, 0, 18446744073709548341);
    BKDRNext(1, 18446744073709548341, 18446744073709107264);
    BKDRNext(2, 18446744073709107264, 18446744073651327749);
    BKDRNext(3, 18446744073651327749, 18446744066082221895);
    BKDRNext(4, 18446744066082221895, 18446743074529344934);
    BKDRNext(5, 18446743074529344934, 18446613181102460947);
    KeyPrefix(5);
  }

  lemma DJBNext(i: nat, h: int, r: int)
    requires i < 6 && DJB(KEY[..i]) == h && r == (h + (ShiftLeft5(h) + Signed(KEY[i])) % WORD) % WORD
    ensures DJB(KEY[..i + 1]) == r
  {
    KeyPrefix(i);
    DJBStep(KEY[..i], KEY[i]);
  }

  lemma KeyDJB()
    ensures DJB(KEY) == 6948268200636
  {
    KeyPrefix(0);
    var none: Str := [];
    assert Pow(33, 0) == 1 && DJB(none) == 5381;
    DJBNext(0, 5381, 177548);
    DJBNext(1, 177548, 5858967);
    DJBNext(2, 5858967, 193345806);
    DJBNext(3, 193345806, 6380411574);
    DJBNext(4, 6380411574, 210553581841);
    DJBNext(5, 210553581841, 6948268200636);
    KeyPrefix(5);
  }

  lemma APNext(i: nat, h: bv64, r: bv64)
    requires i < 6 && AP(KEY[..i]) == h && r == APStep(h, Extend(KEY[i]))
    ensures AP(KEY[..i + 1]) == r
  {
    KeyPrefix(i);
    APSnoc(KEY[..i], KEY[i]);
  }

  lemma KeyAP()
    ensures AP(KEY) == 0xC38E_00C1_0D03_5AFE
  {
    KeyPrefix(0);
    APNext(0, 0, 0xFFFF_FFFF_FFFF_FFE7);
    APNext(1, 0xFFFF_FFFF_FFFF_FFE7, 0xE000_0000_0000_0C10);
    APNext(2, 0xE000_0000_0000_0C10, 0x03FF_FFFF_FFF9_FA05);
    APNext(3, 0x03FF_FFFF_FFF9_FA05, 0x0380_0000_0304_382D);
    APNext(4, 0x0380_0000_0304_382D, 0x3C0F_FFFE_7E87_5633);
    APNext(5, 0x3C0F_FFFE_7E87_5633, 0xC38E_00C1_0D03_5AFE);
    KeyPrefix(5);
  }

  /** The three hashes of the key, and its positions among 10000. */
  lemma KeyHashes()
    ensures BKDR(KEY) == 0xFFFF_88F4_30A6_9013 && BKDR(KEY) % 10000 == 947
    ensures AP(KEY) == 0xC38E_00C1_0D03_5AFE && (AP(KEY) as int) % 10000 == 2510
    ensures DJB(KEY) == 6948268200636 && DJB(KEY) % 10000 == 636
  {
    KeyBKDR();
    KeyAP();
    KeyDJB();
  }
}
