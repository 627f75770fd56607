/**
  The wiring modules of the circuit: `IP`, `IP_1`, `E_MATRIX`, `P_MATRIX`, `PC_1`, `PC_2` and the two
  28-bit rotations. A Verilog vector `[n-1:0]` is the bit-vector type of the same width, and a Verilog
  concatenation of single bits is written row by row in the layout of its source file.
 */
module DesWiring {

  /** Bit `k` of a vector, counted from the least significant end as Verilog does. */
  function Bit(x: bv64, k: bv6): bv1 {
    ((x >> k) & 1) as bv1
  }

  function Row4(x: bv64, a: bv6, b: bv6, c: bv6, d: bv6): bv4 {
    ((Bit(x, a) as bv4) << 3) | ((Bit(x, b) as bv4) << 2) | ((Bit(x, c) as bv4) << 1) | (Bit(x, d) as bv4)
  }

  function Row6(x: bv64, a: bv6, b: bv6, c: bv6, d: bv6, e: bv6, f: bv6): bv6 {
    ((Bit(x, a) as bv6) << 5) | ((Bit(x, b) as bv6) << 4) | ((Bit(x, c) as bv6) << 3) | ((Bit(x, d) as bv6) << 2)
    | ((Bit(x, e) as bv6) << 1) | Bit(x, f) as bv6
  }

  function Row7(x: bv64, a: bv6, b: bv6, c: bv6, d: bv6, e: bv6, f: bv6, g: bv6): bv7 {
    ((Bit(x, a) as bv7) << 6) | (Row6(x, b, c, d, e, f, g) as bv7)
  }

  function Row8(x: bv64, a: bv6, b: bv6, c: bv6, d: bv6, e: bv6, f: bv6, g: bv6, h: bv6): bv8 {
    ((Row4(x, a, b, c, d) as bv8) << 4) | Row4(x, e, f, g, h) as bv8
  }

  function Stack4x7(a: bv7, b: bv7, c: bv7, d: bv7): bv28 {
    ((a as bv28) << 21) | ((b as bv28) << 14) | ((c as bv28) << 7) | d as bv28
  }

  function Stack4x8(a: bv8, b: bv8, c: bv8, d: bv8): bv32 {
    ((a as bv32) << 24) | ((b as bv32) << 16) | ((c as bv32) << 8) | d as bv32
  }

  function Stack8x4(a: bv4, b: bv4, c: bv4, d: bv4, e: bv4, f: bv4, g: bv4, h: bv4): bv32 {
    ((a as bv32) << 28) | ((b as bv32) << 24) | ((c as bv32) << 20) | ((d as bv32) << 16)
    | ((e as bv32) << 12) | ((f as bv32) << 8) | ((g as bv32) << 4) | h as bv32
  }

  function Stack8x6(a: bv6, b: bv6, c: bv6, d: bv6, e: bv6, f: bv6, g: bv6, h: bv6): bv48 {
    ((a as bv48) << 42) | ((b as bv48) << 36) | ((c as bv48) << 30) | ((d as bv48) << 24)
    | ((e as bv48) << 18) | ((f as bv48) << 12) | ((g as bv48) << 6) | h as bv48
  }

  /** The Verilog concatenation `{hi, lo}` of two 32-bit vectors. */
  function Join32(hi: bv32, lo: bv32): bv64 {
    ((hi as bv64) << 32) | lo as bv64
  }

  /** The Verilog concatenation `{hi, lo}` of two 28-bit vectors. */
  function Join28(hi: bv28, lo: bv28): bv56 {
    ((hi as bv56) << 28) | lo as bv56
  }

  /** `IP.L0` */
  function InitialLeft(data: bv64): bv32 {
    Stack4x8(
      Row8(data, 6, 14, 22, 30, 38, 46, 54, 62),
      Row8(data, 4, 12, 20, 28, 36, 44, 52, 60),
      Row8(data, 2, 10, 18, 26, 34, 42, 50, 58),
      Row8(data, 0, 8, 16, 24, 32, 40, 48, 56))
  }

  /** `IP.R0` */
  function InitialRight(data: bv64): bv32 {
    Stack4x8(
      Row8(data, 7, 15, 23, 31, 39, 47, 55, 63),
      Row8(data, 5, 13, 21, 29, 37, 45, 53, 61),
      Row8(data, 3, 11, 19, 27, 35, 43, 51, 59),
      Row8(data, 1, 9, 17, 25, 33, 41, 49, 57))
  }

  /** The upper half of `IP_1` */
  function FinalHigh(data: bv64): bv32 {
    Stack4x8(
      Row8(data, 24, 56, 16, 48, 8, 40, 0, 32),
      Row8(data, 25, 57, 17, 49, 9, 41, 1, 33),
      Row8(data, 26, 58, 18, 50, 10, 42, 2, 34),
      Row8(data, 27, 59, 19, 51, 11, 43, 3, 35))
  }

  /** The lower half of `IP_1` */
  function FinalLow(data: bv64): bv32 {
    Stack4x8(
      Row8(data, 28, 60, 20, 52, 12, 44, 4, 36),
      Row8(data, 29, 61, 21, 53, 13, 45, 5, 37),
      Row8(data, 30, 62, 22, 54, 14, 46, 6, 38),
      Row8(data, 31, 63, 23, 55, 15, 47, 7, 39))
  }

  /** `IP_1` */
  function FinalPermutation(data: bv64): bv64 {
    Join32(FinalHigh(data), FinalLow(data))
  }

  /** `E_MATRIX` */
  function Expand(r: bv32): bv48 {
    var x := r as bv64;
    Stack8x6(
      Row6(x, 0, 31, 30, 29, 28, 27),
      Row6(x, 28, 27, 26, 25, 24, 23),
      Row6(x, 24, 23, 22, 21, 20, 19),
      Row6(x, 20, 19, 18, 17, 16, 15),
      Row6(x, 16, 15, 14, 13, 12, 11),
      Row6(x, 12, 11, 10, 9, 8, 7),
      Row6(x, 8, 7, 6, 5, 4, 3),
      Row6(x, 4, 3, 2, 1, 0, 31))
  }

  /** `P_MATRIX` */
  function Permute(s: bv32): bv32 {
    var x := s as bv64;
    Stack8x4(
      Row4(x, 16, 25, 12, 11),
      Row4(x, 3, 20, 4, 15),
      Row4(x, 31, 17, 9, 6),
      Row4(x, 27, 14, 1, 22),
      Row4(x, 30, 24, 8, 18),
      Row4(x, 0, 5, 29, 23),
      Row4(x, 13, 19, 2, 26),
      Row4(x, 10, 21, 28, 7))
  }

  /** `PC_1.C0` */
  function KeyLeft(key: bv64): bv28 {
    Stack4x7(
      Row7(key, 7, 15, 23, 31, 39, 47, 55),
      Row7(key, 63, 6, 14, 22, 30, 38, 46),
      Row7(key, 54, 62, 5, 13, 21, 29, 37),
      Row7(key, 45, 53, 61, 4, 12, 20, 28))
  }

  /** `PC_1.D0` */
  function KeyRight(key: bv64): bv28 {
    Stack4x7(
      Row7(key, 1, 9, 17, 25, 33, 41, 49),
      Row7(key, 57, 2, 10, 18, 26, 34, 42),
      Row7(key, 50, 58, 3, 11, 19, 27, 35),
      Row7(key, 43, 51, 59, 36, 44, 52, 60))
  }

  /** `PC_2` */
  function RoundKey(cd: bv56): bv48 {
    var x := cd as bv64;
    Stack8x6(
      Row6(x, 42, 39, 45, 32, 55, 51),
      Row6(x, 53, 28, 41, 50, 35, 46),
      Row6(x, 33, 37, 44, 52, 30, 48),
      Row6(x, 40, 49, 29, 36, 43, 54),
      Row6(x, 15, 4, 25, 19, 9, 1),
      Row6(x, 26, 16, 5, 11, 23, 8),
      Row6(x, 12, 7, 17, 0, 22, 3),
      Row6(x, 10, 14, 6, 20, 27, 24))
  }

  /** `SHIFT_LEFT_1` */
  function ShiftLeft1(c: bv28): bv28 {
    (c << 1) | (c >> 27)
  }

  /** `SHIFT_LEFT_2` */
  function ShiftLeft2(c: bv28): bv28 {
    (c << 2) | (c >> 26)
  }

  /** `IP_1` undoes `IP`: the two wirings are one another's inverse, in both orders. */
  lemma FinalInvertsInitial(data: bv64)
    ensures FinalPermutation(Join32(InitialLeft(data), InitialRight(data))) == data
  {
  }

  lemma InitialInvertsFinal(l: bv32, r: bv32)
    ensures InitialLeft(FinalPermutation(Join32(l, r))) == l
    ensures InitialRight(FinalPermutation(Join32(l, r))) == r
  {
  }

  // Every wiring maps opposite words to opposite words.

  predicate Opposite28(x: bv28, y: bv28) { x ^ y == 0xFFF_FFFF }
  predicate Opposite32(x: bv32, y: bv32) { x ^ y == 0xFFFF_FFFF }
  predicate Opposite48(x: bv48, y: bv48) { x ^ y == 0xFFFF_FFFF_FFFF }
  predicate Opposite56(x: bv56, y: bv56) { x ^ y == 0xFF_FFFF_FFFF_FFFF }
  predicate Opposite64(x: bv64, y: bv64) { x ^ y == 0xFFFF_FFFF_FFFF_FFFF }

  lemma ExpandOpposite(x: bv32, y: bv32, x': bv48, y': bv48)
    requires Opposite32(x, y) && x' == Expand(x) && y' == Expand(y)
    ensures Opposite48(x', y')
  {
  }

  lemma InitialLeftOpposite(x: bv64, y: bv64, x': bv32, y': bv32)
    requires Opposite64(x, y) && x' == InitialLeft(x) && y' == InitialLeft(y)
    ensures Opposite32(x', y')
  {
  }

  lemma InitialRightOpposite(x: bv64, y: bv64, x': bv32, y': bv32)
    requires Opposite64(x, y) && x' == InitialRight(x) && y' == InitialRight(y)
    ensures Opposite32(x', y')
  {
  }

  lemma JoinOpposite32(a: bv32, b: bv32, x: bv32, y: bv32, p: bv64, q: bv64)
    requires Opposite32(a, x) && Opposite32(b, y) && p == Join32(a, b) && q == Join32(x, y)
    ensures Opposite64(p, q)
  {
  }

  lemma FinalOpposite(x: bv64, y: bv64, x': bv64, y': bv64)
    requires Opposite64(x, y) && x' == FinalPermutation(x) && y' == FinalPermutation(y)
    ensures Opposite64(x', y')
  {
  }

  lemma KeyLeftOpposite(x: bv64, y: bv64, x': bv28, y': bv28)
    requires Opposite64(x, y) && x' == KeyLeft(x) && y' == KeyLeft(y)
    ensures Opposite28(x', y')
  {
  }

  lemma KeyRightOpposite(x: bv64, y: bv64, x': bv28, y': bv28)
    requires Opposite64(x, y) && x' == KeyRight(x) && y' == KeyRight(y)
    ensures Opposite28(x', y')
  {
  }

  lemma JoinOpposite28(a: bv28, b: bv28, x: bv28, y: bv28, p: bv56, q: bv56)
    requires Opposite28(a, x) && Opposite28(b, y) && p == Join28(a, b) && q == Join28(x, y)
    ensures Opposite56(p, q)
  {
  }

  lemma RoundKeyOpposite(x: bv56, y: bv56, x': bv48, y': bv48)
    requires Opposite56(x, y) && x' == RoundKey(x) && y' == RoundKey(y)
    ensures Opposite48(x', y')
  {
  }

  lemma ShiftOneOpposite(x: bv28, y: bv28, x': bv28, y': bv28)
    requires Opposite28(x, y) && x' == ShiftLeft1(x) && y' == ShiftLeft1(y)
    ensures Opposite28(x', y')
  {
  }

  lemma ShiftTwoOpposite(x: bv28, y: bv28, x': bv28, y': bv28)
    requires Opposite28(x, y) && x' == ShiftLeft2(x) && y' == ShiftLeft2(y)
    ensures Opposite28(x', y')
  {
  }

  lemma XorOpposite(a: bv32, b: bv32, x: bv32, a': bv32, b': bv32)
    requires Opposite32(a, b) && a' == a ^ x && b' == b ^ x
    ensures Opposite32(a', b')
  {
  }

  lemma XorOpposites(a: bv48, b: bv48, x: bv48, y: bv48)
    requires Opposite48(a, b) && Opposite48(x, y)
    ensures a ^ x == b ^ y
  {
  }

  lemma ComplementIsOpposite(x: bv64, y: bv64)
    requires y == !x
    ensures Opposite64(x, y)
  {
  }

  lemma OppositeIsComplement(x: bv64, y: bv64)
    requires Opposite64(x, y)
    ensures y == !x
  {
  }

  // The rotations.

  lemma ShiftTwice(x: bv28)
    ensures ShiftLeft2(x) == ShiftLeft1(ShiftLeft1(x))
  {
  }

  // What comes out of `P_MATRIX` and of the concatenation of the table outputs determines what goes in.

  lemma PermuteSum(x: bv32, y: bv32, x': bv32, y': bv32)
    requires x' == Permute(x) && y' == Permute(y) && x' ^ y' == 0
    ensures x ^ y == 0
  {
  }

  lemma StackTellsApart(a: bv4, b: bv4, c: bv4, d: bv4, e: bv4, f: bv4, g: bv4, h: bv4,
      a': bv4, b': bv4, c': bv4, d': bv4, e': bv4, f': bv4, g': bv4, h': bv4)
    requires Stack8x4(a, b, c, d, e, f, g, h) ^ Stack8x4(a', b', c', d', e', f', g', h') == 0
    ensures a == a' && b == b' && c == c' && d == d' && e == e' && f == f' && g == g' && h == h'
  {
  }

  // `PC_1` leaves out the lowest bit of each key byte.

  const KEY_BITS: bv64 := 0xFEFE_FEFE_FEFE_FEFE

  lemma SameSum(x: bv28, y: bv28)
    requires x ^ y == 0
    ensures x == y
  {
  }

  lemma KeyLeftSum(x: bv64, y: bv64, x': bv28, y': bv28)
    requires (x ^ y) & KEY_BITS == 0 && x' == KeyLeft(x) && y' == KeyLeft(y)
    ensures x' ^ y' == 0
  {
  }

  lemma KeyRightSum(x: bv64, y: bv64, x': bv28, y': bv28)
    requires (x ^ y) & KEY_BITS == 0 && x' == KeyRight(x) && y' == KeyRight(y)
    ensures x' ^ y' == 0
  {
  }

  lemma KeyIgnoresParity(x: bv64, y: bv64, x1: bv28, y1: bv28, x2: bv28, y2: bv28)
    requires (x ^ y) & KEY_BITS == 0
    requires x1 == KeyLeft(x) && y1 == KeyLeft(y) && x2 == KeyRight(x) && y2 == KeyRight(y)
    ensures x1 == y1 && x2 == y2
  {
    KeyLeftSum(x, y, x1, y1);
    SameSum(x1, y1);
    KeyRightSum(x, y, x2, y2);
    SameSum(x2, y2);
  }
}
