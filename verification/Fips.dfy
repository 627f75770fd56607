/**
  The Data Encryption Standard as FIPS PUB 46-3 prints it, for comparison with the circuit. The standard numbers bits
  from 1, leftmost first; a wiring table lists, for the output bits in order, the numbers of the input bits they are.
 */
module Fips {

  // ---------- Tables of bits ----------

  /** Bit number `n` of a 64-bit vector, at the place of bit number `k`. */
  function Wired(x: bv64, k: bv64, n: bv64): bv64 {
    ((x >> ((64 - n) & 63)) & 1) << ((64 - k) & 63)
  }

  // The rows of a table; `k` is the number of the first output bit of the row.

  function Row2(x: bv64, k: bv64, a: bv64, b: bv64): bv64 {
    Wired(x, k, a) | Wired(x, k + 1, b)
  }

  function Row4(x: bv64, k: bv64, a: bv64, b: bv64, c: bv64, d: bv64): bv64 {
    Row2(x, k, a, b) | Row2(x, k + 2, c, d)
  }

  function Row6(x: bv64, k: bv64, a: bv64, b: bv64, c: bv64, d: bv64, e: bv64, f: bv64): bv64 {
    Row4(x, k, a, b, c, d) | Row2(x, k + 4, e, f)
  }

  function Row7(x: bv64, k: bv64, a: bv64, b: bv64, c: bv64, d: bv64, e: bv64, f: bv64, g: bv64): bv64 {
    Row4(x, k, a, b, c, d) | Row2(x, k + 4, e, f) | Wired(x, k + 6, g)
  }

  function Row8(x: bv64, k: bv64, a: bv64, b: bv64, c: bv64, d: bv64, e: bv64, f: bv64, g: bv64, h: bv64): bv64 {
    Row4(x, k, a, b, c, d) | Row4(x, k + 4, e, f, g, h)
  }

  /** IP */
  function InitialPermutation(x: bv64): bv64 {
    Row8(x, 1, 58, 50, 42, 34, 26, 18, 10, 2)
      | Row8(x, 9, 60, 52, 44, 36, 28, 20, 12, 4)
      | Row8(x, 17, 62, 54, 46, 38, 30, 22, 14, 6)
      | Row8(x, 25, 64, 56, 48, 40, 32, 24, 16, 8)
      | Row8(x, 33, 57, 49, 41, 33, 25, 17, 9, 1)
      | Row8(x, 41, 59, 51, 43, 35, 27, 19, 11, 3)
      | Row8(x, 49, 61, 53, 45, 37, 29, 21, 13, 5)
      | Row8(x, 57, 63, 55, 47, 39, 31, 23, 15, 7)
  }

  /** The inverse of IP */
  function InverseInitial(x: bv64): bv64 {
    Row8(x, 1, 40, 8, 48, 16, 56, 24, 64, 32)
      | Row8(x, 9, 39, 7, 47, 15, 55, 23, 63, 31)
      | Row8(x, 17, 38, 6, 46, 14, 54, 22, 62, 30)
      | Row8(x, 25, 37, 5, 45, 13, 53, 21, 61, 29)
      | Row8(x, 33, 36, 4, 44, 12, 52, 20, 60, 28)
      | Row8(x, 41, 35, 3, 43, 11, 51, 19, 59, 27)
      | Row8(x, 49, 34, 2, 42, 10, 50, 18, 58, 26)
      | Row8(x, 57, 33, 1, 41, 9, 49, 17, 57, 25)
  }

  /** E */
  function E(r: bv32): bv48 {
    var x := (r as bv64) << 32;
    var y :=
      Row6(x, 1, 32, 1, 2, 3, 4, 5)
      | Row6(x, 7, 4, 5, 6, 7, 8, 9)
      | Row6(x, 13, 8, 9, 10, 11, 12, 13)
      | Row6(x, 19, 12, 13, 14, 15, 16, 17)
      | Row6(x, 25, 16, 17, 18, 19, 20, 21)
      | Row6(x, 31, 20, 21, 22, 23, 24, 25)
      | Row6(x, 37, 24, 25, 26, 27, 28, 29)
      | Row6(x, 43, 28, 29, 30, 31, 32, 1);
    (y >> 16) as bv48
  }

  /** P */
  function P(s: bv32): bv32 {
    var x := (s as bv64) << 32;
    var y :=
      Row4(x, 1, 16, 7, 20, 21)
      | Row4(x, 5, 29, 12, 28, 17)
      | Row4(x, 9, 1, 15, 23, 26)
      | Row4(x, 13, 5, 18, 31, 10)
      | Row4(x, 17, 2, 8, 24, 14)
      | Row4(x, 21, 32, 27, 3, 9)
      | Row4(x, 25, 19, 13, 30, 6)
      | Row4(x, 29, 22, 11, 4, 25);
    (y >> 32) as bv32
  }

  /** PC-1: C and D side by side */
  function PermutedChoice1(x: bv64): bv56 {
    var y :=
      Row7(x, 1, 57, 49, 41, 33, 25, 17, 9)
      | Row7(x, 8, 1, 58, 50, 42, 34, 26, 18)
      | Row7(x, 15, 10, 2, 59, 51, 43, 35, 27)
      | Row7(x, 22, 19, 11, 3, 60, 52, 44, 36)
      | Row7(x, 29, 63, 55, 47, 39, 31, 23, 15)
      | Row7(x, 36, 7, 62, 54, 46, 38, 30, 22)
      | Row7(x, 43, 14, 6, 61, 53, 45, 37, 29)
      | Row7(x, 50, 21, 13, 5, 28, 20, 12, 4);
    (y >> 8) as bv56
  }

  /** PC-2 */
  function PermutedChoice2(cd: bv56): bv48 {
    var x := (cd as bv64) << 8;
    var y :=
      Row6(x, 1, 14, 17, 11, 24, 1, 5)
      | Row6(x, 7, 3, 28, 15, 6, 21, 10)
      | Row6(x, 13, 23, 19, 12, 4, 26, 8)
      | Row6(x, 19, 16, 7, 27, 20, 13, 2)
      | Row6(x, 25, 41, 52, 31, 37, 47, 55)
      | Row6(x, 31, 30, 40, 51, 45, 33, 48)
      | Row6(x, 37, 44, 49, 39, 56, 34, 53)
      | Row6(x, 43, 46, 42, 50, 36, 29, 32);
    (y >> 16) as bv48
  }

  // ---------- The selection functions ----------

  /** The entry in column `j` of a row. */
  function Column(j: bv4, v0: bv4, v1: bv4, v2: bv4, v3: bv4, v4: bv4, v5: bv4, v6: bv4, v7: bv4,
      v8: bv4, v9: bv4, v10: bv4, v11: bv4, v12: bv4, v13: bv4, v14: bv4, v15: bv4): bv4
  {
    if j < 8 then
      if j < 4 then if j == 0 then v0 else if j == 1 then v1 else if j == 2 then v2 else v3
      else if j == 4 then v4 else if j == 5 then v5 else if j == 6 then v6 else v7
    else
      if j < 12 then if j == 8 then v8 else if j == 9 then v9 else if j == 10 then v10 else v11
      else if j == 12 then v12 else if j == 13 then v13 else if j == 14 then v14 else v15
  }

  /** The row is the number that the first and the last bit make. */
  function RowOf(b: bv6): bv2 {
    (((b >> 5) << 1) | (b & 1)) as bv2
  }

  /** The column is the number that the four bits in between make. */
  function ColumnOf(b: bv6): bv4 {
    ((b >> 1) & 0xF) as bv4
  }

  function S1(b: bv6): bv4 {
    var i, j := RowOf(b), ColumnOf(b);
    if i == 0 then Column(j, 14, 4, 13, 1, 2, 15, 11, 8, 3, 10, 6, 12, 5, 9, 0, 7)
    else if i == 1 then Column(j, 0, 15, 7, 4, 14, 2, 13, 1, 10, 6, 12, 11, 9, 5, 3, 8)
    else if i == 2 then Column(j, 4, 1, 14, 8, 13, 6, 2, 11, 15, 12, 9, 7, 3, 10, 5, 0)
    else Column(j, 15, 12, 8, 2, 4, 9, 1, 7, 5, 11, 3, 14, 10, 0, 6, 13)
  }

  function S2(b: bv6): bv4 {
    var i, j := RowOf(b), ColumnOf(b);
    if i == 0 then Column(j, 15, 1, 8, 14, 6, 11, 3, 4, 9, 7, 2, 13, 12, 0, 5, 10)
    else if i == 1 then Column(j, 3, 13, 4, 7, 15, 2, 8, 14, 12, 0, 1, 10, 6, 9, 11, 5)
    else if i == 2 then Column(j, 0, 14, 7, 11, 10, 4, 13, 1, 5, 8, 12, 6, 9, 3, 2, 15)
    else Column(j, 13, 8, 10, 1, 3, 15, 4, 2, 11, 6, 7, 12, 0, 5, 14, 9)
  }

  function S3(b: bv6): bv4 {
    var i, j := RowOf(b), ColumnOf(b);
    if i == 0 then Column(j, 10, 0, 9, 14, 6, 3, 15, 5, 1, 13, 12, 7, 11, 4, 2, 8)
    else if i == 1 then Column(j, 13, 7, 0, 9, 3, 4, 6, 10, 2, 8, 5, 14, 12, 11, 15, 1)
    else if i == 2 then Column(j, 13, 6, 4, 9, 8, 15, 3, 0, 11, 1, 2, 12, 5, 10, 14, 7)
    else Column(j, 1, 10, 13, 0, 6, 9, 8, 7, 4, 15, 14, 3, 11, 5, 2, 12)
  }

  function S4(b: bv6): bv4 {
    var i, j := RowOf(b), ColumnOf(b);
    if i == 0 then Column(j, 7, 13, 14, 3, 0, 6, 9, 10, 1, 2, 8, 5, 11, 12, 4, 15)
    else if i == 1 then Column(j, 13, 8, 11, 5, 6, 15, 0, 3, 4, 7, 2, 12, 1, 10, 14, 9)
    else if i == 2 then Column(j, 10, 6, 9, 0, 12, 11, 7, 13, 15, 1, 3, 14, 5, 2, 8, 4)
    else Column(j, 3, 15, 0, 6, 10, 1, 13, 8, 9, 4, 5, 11, 12, 7, 2, 14)
  }

  function S5(b: bv6): bv4 {
    var i, j := RowOf(b), ColumnOf(b);
    if i == 0 then Column(j, 2, 12, 4, 1, 7, 10, 11, 6, 8, 5, 3, 15, 13, 0, 14, 9)
    else if i == 1 then Column(j, 14, 11, 2, 12, 4, 7, 13, 1, 5, 0, 15, 10, 3, 9, 8, 6)
    else if i == 2 then Column(j, 4, 2, 1, 11, 10, 13, 7, 8, 15, 9, 12, 5, 6, 3, 0, 14)
    else Column(j, 11, 8, 12, 7, 1, 14, 2, 13, 6, 15, 0, 9, 10, 4, 5, 3)
  }

  function S6(b: bv6): bv4 {
    var i, j := RowOf(b), ColumnOf(b);
    if i == 0 then Column(j, 12, 1, 10, 15, 9, 2, 6, 8, 0, 13, 3, 4, 14, 7, 5, 11)
    else if i == 1 then Column(j, 10, 15, 4, 2, 7, 12, 9, 5, 6, 1, 13, 14, 0, 11, 3, 8)
    else if i == 2 then Column(j, 9, 14, 15, 5, 2, 8, 12, 3, 7, 0, 4, 10, 1, 13, 11, 6)
    else Column(j, 4, 3, 2, 12, 9, 5, 15, 10, 11, 14, 1, 7, 6, 0, 8, 13)
  }

  function S7(b: bv6): bv4 {
    var i, j := RowOf(b), ColumnOf(b);
    if i == 0 then Column(j, 4, 11, 2, 14, 15, 0, 8, 13, 3, 12, 9, 7, 5, 10, 6, 1)
    else if i == 1 then Column(j, 13, 0, 11, 7, 4, 9, 1, 10, 14, 3, 5, 12, 2, 15, 8, 6)
    else if i == 2 then Column(j, 1, 4, 11, 13, 12, 3, 7, 14, 10, 15, 6, 8, 0, 5, 9, 2)
    else Column(j, 6, 11, 13, 8, 1, 4, 10, 7, 9, 5, 0, 15, 14, 2, 3, 12)
  }

  function S8(b: bv6): bv4 {
    var i, j := RowOf(b), ColumnOf(b);
    if i == 0 then Column(j, 13, 2, 8, 4, 6, 15, 11, 1, 10, 9, 3, 14, 5, 0, 12, 7)
    else if i == 1 then Column(j, 1, 15, 13, 8, 10, 3, 7, 4, 12, 5, 6, 11, 0, 14, 9, 2)
    else if i == 2 then Column(j, 7, 11, 4, 1, 9, 12, 14, 2, 0, 6, 10, 13, 15, 3, 5, 8)
    else Column(j, 2, 1, 14, 7, 4, 10, 8, 13, 15, 12, 9, 0, 3, 5, 6, 11)
  }

  /** Block number `n` of six bits. */
  function Block(x: bv48, n: bv6): bv6
    requires 1 <= n <= 8
  {
    ((x >> (48 - 6 * n)) & 0x3F) as bv6
  }

  /** Eight blocks of four bits, one after the other. */
  function Blocks(b1: bv4, b2: bv4, b3: bv4, b4: bv4, b5: bv4, b6: bv4, b7: bv4, b8: bv4): bv32 {
    ((b1 as bv32) << 28) | ((b2 as bv32) << 24) | ((b3 as bv32) << 20) | ((b4 as bv32) << 16)
    | ((b5 as bv32) << 12) | ((b6 as bv32) << 8) | ((b7 as bv32) << 4) | b8 as bv32
  }

  // ---------- The cipher function and the key schedule ----------

  function F(r: bv32, k: bv48): bv32 {
    var b := E(r) ^ k;
    P(Blocks(S1(Block(b, 1)), S2(Block(b, 2)), S3(Block(b, 3)), S4(Block(b, 4)),
             S5(Block(b, 5)), S6(Block(b, 6)), S7(Block(b, 7)), S8(Block(b, 8))))
  }

  /** The left shifts of the sixteen iterations. */
  const SHIFTS := [1, 1, 2, 2, 2, 2, 2, 2, 1, 2, 2, 2, 2, 2, 2, 1]

  function LeftShift(x: bv28, places: nat): bv28
    decreases places
  {
    if places == 0 then x else LeftShift(x.RotateLeft(1), places - 1)
  }

  /** The 28-bit blocks after iteration `n`. */
  function C(key: bv64, n: nat): bv28
    requires n <= 16
  {
    if n == 0 then (PermutedChoice1(key) >> 28) as bv28 else LeftShift(C(key, n - 1), SHIFTS[n - 1])
  }

  function D(key: bv64, n: nat): bv28
    requires n <= 16
  {
    if n == 0 then (PermutedChoice1(key) & 0xFFF_FFFF) as bv28 else LeftShift(D(key, n - 1), SHIFTS[n - 1])
  }

  function K(key: bv64, n: nat): bv48
    requires n <= 16
  {
    PermutedChoice2(((C(key, n) as bv56) << 28) | D(key, n) as bv56)
  }

  // ---------- Enciphering ----------

  /** The two halves after iteration `n`. */
  function L(block: bv64, key: bv64, n: nat): bv32
    requires n <= 16
  {
    if n == 0 then (InitialPermutation(block) >> 32) as bv32 else R(block, key, n - 1)
  }

  function R(block: bv64, key: bv64, n: nat): bv32
    requires n <= 16
  {
    if n == 0 then (InitialPermutation(block) & 0xFFFF_FFFF) as bv32
    else L(block, key, n - 1) ^ F(R(block, key, n - 1), K(key, n))
  }

  /** The preoutput is R16 followed by L16. */
  function Encipher(block: bv64, key: bv64): bv64 {
    InverseInitial(((R(block, key, 16) as bv64) << 32) | L(block, key, 16) as bv64)
  }
}
