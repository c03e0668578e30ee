/** The 32-bit word functions of SHA-256 (section 4.1.2 of FIPS 180-4) and the 64-bit ones that algo/sha256.h
    computes them with: word_t is unsigned long. */
module Sha256Words {
  // ---------------------------------------------------------------------------------------------
  // The standard, on 32-bit words

  function Add32(x: bv32, y: bv32): bv32 {
    x + y
  }

  function Xor32(x: bv32, y: bv32): bv32 {
    x ^ y
  }

  function RotR32(x: bv32, n: bv6): bv32
    requires n < 32
  {
    (x >> n) | (x << (32 - n))
  }

  function Ch32(x: bv32, y: bv32, z: bv32): bv32 {
    (x & y) ^ (!x & z)
  }

  function Maj32(x: bv32, y: bv32, z: bv32): bv32 {
    (x & y) ^ (x & z) ^ (y & z)
  }

  function BigSigma0(x: bv32): bv32 {
    Xor32(Xor32(RotR32(x, 2), RotR32(x, 13)), RotR32(x, 22))
  }

  function BigSigma1(x: bv32): bv32 {
    Xor32(Xor32(RotR32(x, 6), RotR32(x, 11)), RotR32(x, 25))
  }

  function SmallSigma0(x: bv32): bv32 {
    Xor32(Xor32(RotR32(x, 7), RotR32(x, 18)), x >> 3)
  }

  function SmallSigma1(x: bv32): bv32 {
    Xor32(Xor32(RotR32(x, 17), RotR32(x, 19)), x >> 10)
  }

  // ---------------------------------------------------------------------------------------------
  // The source, on 64-bit words

  function Add64(x: bv64, y: bv64): bv64 {
    x + y
  }

  function Xor64(x: bv64, y: bv64): bv64 {
    x ^ y
  }

  function Mask32(x: bv64): bv64 {
    x & 0xFFFF_FFFF
  }

  function RotR(x: bv64, n: bv6): bv64
    requires n < 32
  {
    Mask32((x >> n) | (x << (32 - n)))
  }

  function Ch(x: bv64, y: bv64, z: bv64): bv64 {
    (x & y) ^ (!x & z)
  }

  function Maj(x: bv64, y: bv64, z: bv64): bv64 {
    (x & y) ^ (x & z) ^ (y & z)
  }

  function BSig0(x: bv64): bv64 {
    Xor64(Xor64(RotR(x, 2), RotR(x, 13)), RotR(x, 22))
  }

  function BSig1(x: bv64): bv64 {
    Xor64(Xor64(RotR(x, 6), RotR(x, 11)), RotR(x, 25))
  }

  function SSig0(x: bv64): bv64 {
    Xor64(Xor64(RotR(x, 7), RotR(x, 18)), x >> 3)
  }

  function SSig1(x: bv64): bv64 {
    Xor64(Xor64(RotR(x, 17), RotR(x, 19)), x >> 10)
  }

  // ---------------------------------------------------------------------------------------------
  // A 64-bit word that holds a 32-bit one behaves like it

  function Wide(x: bv32): bv64 {
    x as bv64
  }

  function Low(x: bv64): bv32 {
    (x & 0xFFFF_FFFF) as bv32
  }

  lemma MaskIsLow(x: bv64)
    ensures Mask32(x) == Wide(Low(x))
  {
  }

  lemma LowOfWide(x: bv32)
    ensures Low(Wide(x)) == x
  {
  }

  lemma LowOfSumRaw(a: bv64, b: bv64)
    ensures ((a + b) & 0xFFFF_FFFF) as bv32 == (a & 0xFFFF_FFFF) as bv32 + (b & 0xFFFF_FFFF) as bv32
  {
  }

  lemma LowUnfold(a: bv64)
    ensures Low(a) == (a & 0xFFFF_FFFF) as bv32
  {
  }

  /** Truncation to 32 bits is additive. */
  lemma LowOfSum(a: bv64, b: bv64)
    ensures Low(Add64(a, b)) == Add32(Low(a), Low(b))
  {
    hide Low;
    LowUnfold(a);
    LowUnfold(b);
    LowUnfold(a + b);
    LowOfSumRaw(a, b);
  }

  lemma LogicRefines(x: bv32, y: bv32, z: bv32)
    ensures Ch(Wide(x), Wide(y), Wide(z)) == Wide(Ch32(x, y, z))
    ensures Maj(Wide(x), Wide(y), Wide(z)) == Wide(Maj32(x, y, z))
  {
  }

  lemma XorRefines(x: bv32, y: bv32)
    ensures Xor64(Wide(x), Wide(y)) == Wide(Xor32(x, y))
  {
  }

  lemma ShiftsRefine(x: bv32)
    ensures Wide(x) >> 3 == Wide(x >> 3) && Wide(x) >> 10 == Wide(x >> 10)
  {
  }

  lemma RotR2Refines(x: bv32)
    ensures RotR(Wide(x), 2) == Wide(RotR32(x, 2))
  {
    assert (((x as bv64) >> 2) | ((x as bv64) << 30)) & 0xFFFF_FFFF == ((x >> 2) | (x << 30)) as bv64;
  }

  lemma RotR13Refines(x: bv32)
    ensures RotR(Wide(x), 13) == Wide(RotR32(x, 13))
  {
    assert (((x as bv64) >> 13) | ((x as bv64) << 19)) & 0xFFFF_FFFF == ((x >> 13) | (x << 19)) as bv64;
  }

  lemma RotR22Refines(x: bv32)
    ensures RotR(Wide(x), 22) == Wide(RotR32(x, 22))
  {
    assert (((x as bv64) >> 22) | ((x as bv64) << 10)) & 0xFFFF_FFFF == ((x >> 22) | (x << 10)) as bv64;
  }

  lemma RotR6Refines(x: bv32)
    ensures RotR(Wide(x), 6) == Wide(RotR32(x, 6))
  {
    assert (((x as bv64) >> 6) | ((x as bv64) << 26)) & 0xFFFF_FFFF == ((x >> 6) | (x << 26)) as bv64;
  }

  lemma RotR11Refines(x: bv32)
    ensures RotR(Wide(x), 11) == Wide(RotR32(x, 11))
  {
    assert (((x as bv64) >> 11) | ((x as bv64) << 21)) & 0xFFFF_FFFF == ((x >> 11) | (x << 21)) as bv64;
  }

  lemma RotR25Refines(x: bv32)
    ensures RotR(Wide(x), 25) == Wide(RotR32(x, 25))
  {
    assert (((x as bv64) >> 25) | ((x as bv64) << 7)) & 0xFFFF_FFFF == ((x >> 25) | (x << 7)) as bv64;
  }

  lemma RotR7Refines(x: bv32)
    ensures RotR(Wide(x), 7) == Wide(RotR32(x, 7))
  {
    assert (((x as bv64) >> 7) | ((x as bv64) << 25)) & 0xFFFF_FFFF == ((x >> 7) | (x << 25)) as bv64;
  }

  lemma RotR18Refines(x: bv32)
    ensures RotR(Wide(x), 18) == Wide(RotR32(x, 18))
  {
    assert (((x as bv64) >> 18) | ((x as bv64) << 14)) & 0xFFFF_FFFF == ((x >> 18) | (x << 14)) as bv64;
  }

  lemma RotR17Refines(x: bv32)
    ensures RotR(Wide(x), 17) == Wide(RotR32(x, 17))
  {
    assert (((x as bv64) >> 17) | ((x as bv64) << 15)) & 0xFFFF_FFFF == ((x >> 17) | (x << 15)) as bv64;
  }

  lemma RotR19Refines(x: bv32)
    ensures RotR(Wide(x), 19) == Wide(RotR32(x, 19))
  {
    assert (((x as bv64) >> 19) | ((x as bv64) << 13)) & 0xFFFF_FFFF == ((x >> 19) | (x << 13)) as bv64;
  }

  lemma BSig0Refines(x: bv32)
    ensures BSig0(Wide(x)) == Wide(BigSigma0(x))
  {
    hide Wide, RotR, RotR32, Xor32, Xor64;
    RotR2Refines(x);
    RotR13Refines(x);
    RotR22Refines(x);
    XorRefines(RotR32(x, 2), RotR32(x, 13));
    XorRefines(Xor32(RotR32(x, 2), RotR32(x, 13)), RotR32(x, 22));
  }

  lemma BSig1Refines(x: bv32)
    ensures BSig1(Wide(x)) == Wide(BigSigma1(x))
  {
    hide Wide, RotR, RotR32, Xor32, Xor64;
    RotR6Refines(x);
    RotR11Refines(x);
    RotR25Refines(x);
    XorRefines(RotR32(x, 6), RotR32(x, 11));
    XorRefines(Xor32(RotR32(x, 6), RotR32(x, 11)), RotR32(x, 25));
  }

  lemma SSig0Refines(x: bv32)
    ensures SSig0(Wide(x)) == Wide(SmallSigma0(x))
  {
    hide Wide, RotR, RotR32, Xor32, Xor64;
    RotR7Refines(x);
    RotR18Refines(x);
    ShiftsRefine(x);
    XorRefines(RotR32(x, 7), RotR32(x, 18));
    XorRefines(Xor32(RotR32(x, 7), RotR32(x, 18)), x >> 3);
  }

  lemma SSig1Refines(x: bv32)
    ensures SSig1(Wide(x)) == Wide(SmallSigma1(x))
  {
    hide Wide, RotR, RotR32, Xor32, Xor64;
    RotR17Refines(x);
    RotR19Refines(x);
    ShiftsRefine(x);
    XorRefines(RotR32(x, 17), RotR32(x, 19));
    XorRefines(Xor32(RotR32(x, 17), RotR32(x, 19)), x >> 10);
  }
}
