/** The constants of SHA-256 against their definition in sections 4.2.2 and 5.3.3 of FIPS 180-4. */
module Sha256Constants {
  import opened Bytes
  import opened Sha256Block

  /** The first sixty-four primes. */
  function Prime(i: nat): nat {
    match i
    case 0 => 2 case 1 => 3 case 2 => 5 case 3 => 7 case 4 => 11 case 5 => 13 case 6 => 17 case 7 => 19
    case 8 => 23 case 9 => 29 case 10 => 31 case 11 => 37 case 12 => 41 case 13 => 43 case 14 => 47 case 15 => 53
    case 16 => 59 case 17 => 61 case 18 => 67 case 19 => 71 case 20 => 73 case 21 => 79 case 22 => 83 case 23 => 89
    case 24 => 97 case 25 => 101 case 26 => 103 case 27 => 107 case 28 => 109 case 29 => 113 case 30 => 127 case 31 => 131
    case 32 => 137 case 33 => 139 case 34 => 149 case 35 => 151 case 36 => 157 case 37 => 163 case 38 => 167 case 39 => 173
    case 40 => 179 case 41 => 181 case 42 => 191 case 43 => 193 case 44 => 197 case 45 => 199 case 46 => 211 case 47 => 223
    case 48 => 227 case 49 => 229 case 50 => 233 case 51 => 239 case 52 => 241 case 53 => 251 case 54 => 257 case 55 => 263
    case 56 => 269 case 57 => 271 case 58 => 277 case 59 => 281 case 60 => 283 case 61 => 293 case 62 => 307 case 63 => 311
    case _ => 0
  }

  /** x / 2^32 is the cube root of p cut after 32 fractional bits. */
  predicate CubeRoot32(x: int, p: int) {
    x * x * x <= p * (TWO32 * TWO32 * TWO32) < (x + 1) * (x + 1) * (x + 1)
  }

  predicate SquareRoot32(x: int, p: int) {
    x * x <= p * (TWO32 * TWO32) < (x + 1) * (x + 1)
  }

  /** The integer part of the cube root of the i-th prime. */
  function CubeRootFloor(i: nat): nat {
    if i < 4 then 1 else if i < 9 then 2 else if i < 18 then 3 else if i < 30 then 4 else if i < 47 then 5 else 6
  }

  lemma AddConstants0To15(i: nat)
    requires 0 <= i < 16
    ensures CubeRoot32(CubeRootFloor(i) * TWO32 + AddConstant(i) as int, Prime(i))
  {
    match i {
      case 0 => case 1 => case 2 => case 3 => case 4 => case 5 => case 6 => case 7 =>
      case 8 => case 9 => case 10 => case 11 => case 12 => case 13 => case 14 => case _ =>
    }
  }

  lemma AddConstants16To31(i: nat)
    requires 16 <= i < 32
    ensures CubeRoot32(CubeRootFloor(i) * TWO32 + AddConstant(i) as int, Prime(i))
  {
    match i {
      case 16 => case 17 => case 18 => case 19 => case 20 => case 21 => case 22 => case 23 =>
      case 24 => case 25 => case 26 => case 27 => case 28 => case 29 => case 30 => case _ =>
    }
  }

  lemma AddConstants32To47(i: nat)
    requires 32 <= i < 48
    ensures CubeRoot32(CubeRootFloor(i) * TWO32 + AddConstant(i) as int, Prime(i))
  {
    match i {
      case 32 => case 33 => case 34 => case 35 => case 36 => case 37 => case 38 => case 39 =>
      case 40 => case 41 => case 42 => case 43 => case 44 => case 45 => case 46 => case _ =>
    }
  }

  lemma AddConstants48To63(i: nat)
    requires 48 <= i < 64
    ensures CubeRoot32(CubeRootFloor(i) * TWO32 + AddConstant(i) as int, Prime(i))
  {
    match i {
      case 48 => case 49 => case 50 => case 51 => case 52 => case 53 => case 54 => case 55 =>
      case 56 => case 57 => case 58 => case 59 => case 60 => case 61 => case 62 => case _ =>
    }
  }

  /** Every round constant is the first 32 fractional bits of the cube root of its prime. */
  lemma AddConstantsAreCubeRoots(i: nat)
    requires i < 64
    ensures CubeRoot32(CubeRootFloor(i) * TWO32 + AddConstant(i) as int, Prime(i))
  {
    hide *;
    if i < 16 { AddConstants0To15(i); }
    else if i < 32 { AddConstants16To31(i); }
    else if i < 48 { AddConstants32To47(i); }
    else { AddConstants48To63(i); }
  }

  /** Every initial word is the first 32 fractional bits of the square root of its prime. */
  lemma InitialWordsAreSquareRoots(i: nat)
    requires i < 8
    ensures SquareRoot32((if i < 2 then 1 else if i < 4 then 2 else if i < 6 then 3 else 4) * TWO32
                         + WordAt(INITIAL, i) as int, Prime(i))
  {
    match i {
      case 0 => case 1 => case 2 => case 3 => case 4 => case 5 => case 6 => case _ =>
    }
  }
}
