/**
  DES as FIPS PUB 46-3 defines it, put together from the modules of the circuit, and what it promises for
  every block and every key.
 */
module Des {
  import opened DesWiring
  import opened DesSBox
  import opened Feistel
  import opened KeySchedule
  import opened BlockCipher

  // ---------- The parts ----------

  /** One of the eight 6-bit groups that `E_XOR_KEY` cuts out of its 48-bit sum. */
  function Group(x: bv48, lsb: bv6): bv6
    requires lsb <= 42
  {
    ((x >> lsb) & 0x3F) as bv6
  }

  function SubstituteAll(x: bv48): bv32 {
    Stack8x4(
      Substitute(S1, Group(x, 42)), Substitute(S2, Group(x, 36)),
      Substitute(S3, Group(x, 30)), Substitute(S4, Group(x, 24)),
      Substitute(S5, Group(x, 18)), Substitute(S6, Group(x, 12)),
      Substitute(S7, Group(x, 6)), Substitute(S8, Group(x, 0)))
  }

  /** `F_FUNCTION` */
  function F(r: bv32, key: bv48): bv32 {
    Permute(SubstituteAll(Expand(r) ^ key))
  }

  function Xor(x: bv32, y: bv32): bv32 {
    x ^ y
  }

  /** The two registers of the key schedule. */
  datatype KeyHalves = KeyHalves(c: bv28, d: bv28)

  function Turn(k: KeyHalves, n: nat): KeyHalves {
    if n == 1 then KeyHalves(ShiftLeft1(k.c), ShiftLeft1(k.d))
    else KeyHalves(ShiftLeft2(k.c), ShiftLeft2(k.d))
  }

  function Select(k: KeyHalves): bv48 {
    RoundKey(Join28(k.c, k.d))
  }

  function LoadKey(key: bv64): KeyHalves {
    KeyHalves(KeyLeft(key), KeyRight(key))
  }

  function LoadBlock(block: bv64): Halves<bv32> {
    Halves(InitialLeft(block), InitialRight(block))
  }

  /** The halves are exchanged before the final permutation. */
  function Unload(h: Halves<bv32>): bv64 {
    FinalPermutation(Join32(h.r, h.l))
  }

  const DES: Design<bv64, bv32, KeyHalves, bv48> :=
    Design(Network(Xor, F), Schedule(Turn, Select), LoadBlock, Unload, LoadKey)

  // ---------- Deciphering inverts enciphering ----------

  lemma XorCancels(x: bv32, y: bv32)
    ensures (x ^ y) ^ y == x
  {
  }

  lemma DesIsInvertible()
    ensures Invertible(DES)
  {
    forall x, y ensures DES.net.mix(DES.net.mix(x, y), y) == x {
      XorCancels(x, y);
    }
    forall h ensures DES.load(DES.unload(h)) == h.Swap() {
      InitialInvertsFinal(h.r, h.l);
    }
    forall b ensures DES.unload(DES.load(b).Swap()) == b {
      FinalInvertsInitial(b);
    }
  }

  lemma DecryptInvertsEncrypt(block: bv64, key: bv64)
    ensures Decrypt(DES, Encrypt(DES, block, key), key) == block
    ensures Encrypt(DES, Decrypt(DES, block, key), key) == block
  {
    DesIsInvertible();
    DecryptInverts(DES, block, key);
  }

  /** For a fixed key the circuit's map is a bijection on blocks. */
  lemma EncryptIsBijection(a: bv64, b: bv64, key: bv64)
    ensures Encrypt(DES, a, key) == Encrypt(DES, b, key) ==> a == b
    ensures exists p :: Encrypt(DES, p, key) == a
  {
    DecryptInvertsEncrypt(a, key);
    DecryptInvertsEncrypt(b, key);
  }

  // ---------- What the round function keeps of its sub-key ----------

  /** The bits of a 48-bit sum that choose the rows of the tables. */
  const ROW_BITS: bv48 := 0x8618_6186_1861

  lemma GroupsAgreeInRows(x: bv48, y: bv48, lsb: bv6)
    requires (x ^ y) & ROW_BITS == 0
    requires lsb in {0, 6, 12, 18, 24, 30, 36, 42}
    ensures (Group(x, lsb) ^ Group(y, lsb)) & 0x21 == 0
  {
  }

  lemma GroupsDetermine(x: bv48, y: bv48)
    requires Group(x, 42) == Group(y, 42) && Group(x, 36) == Group(y, 36)
    requires Group(x, 30) == Group(y, 30) && Group(x, 24) == Group(y, 24)
    requires Group(x, 18) == Group(y, 18) && Group(x, 12) == Group(y, 12)
    requires Group(x, 6) == Group(y, 6) && Group(x, 0) == Group(y, 0)
    ensures x ^ y == 0
  {
  }

  lemma GroupKept(i: nat, x: bv48, y: bv48, lsb: bv6)
    requires (x ^ y) & ROW_BITS == 0 && lsb in {0, 6, 12, 18, 24, 30, 36, 42}
    requires Substitute(Table(i), Group(x, lsb)) == Substitute(Table(i), Group(y, lsb))
    ensures Group(x, lsb) == Group(y, lsb)
  {
    hide Substitute, Table;
    GroupsAgreeInRows(x, y, lsb);
    TablesAreInjectiveInRows(i, Group(x, lsb), Group(y, lsb));
  }

  lemma SubstitutionTellsApart(x: bv48, y: bv48)
    requires (x ^ y) & ROW_BITS == 0 && SubstituteAll(x) ^ SubstituteAll(y) == 0
    ensures x ^ y == 0
  {
    hide Stack8x4, Group, Substitute;
    StackTellsApart(
      Substitute(S1, Group(x, 42)), Substitute(S2, Group(x, 36)),
      Substitute(S3, Group(x, 30)), Substitute(S4, Group(x, 24)),
      Substitute(S5, Group(x, 18)), Substitute(S6, Group(x, 12)),
      Substitute(S7, Group(x, 6)), Substitute(S8, Group(x, 0)),
      Substitute(S1, Group(y, 42)), Substitute(S2, Group(y, 36)),
      Substitute(S3, Group(y, 30)), Substitute(S4, Group(y, 24)),
      Substitute(S5, Group(y, 18)), Substitute(S6, Group(y, 12)),
      Substitute(S7, Group(y, 6)), Substitute(S8, Group(y, 0)));
    GroupKept(1, x, y, 42);
    GroupKept(2, x, y, 36);
    GroupKept(3, x, y, 30);
    GroupKept(4, x, y, 24);
    GroupKept(5, x, y, 18);
    GroupKept(6, x, y, 12);
    GroupKept(7, x, y, 6);
    GroupKept(8, x, y, 0);
    GroupsDetermine(x, y);
  }

  lemma SumKeepsRows(e: bv48, key: bv48, key': bv48, x: bv48, y: bv48)
    requires x == e ^ key && y == e ^ key' && (key ^ key') & ROW_BITS == 0
    ensures (x ^ y) & ROW_BITS == 0
  {
  }

  lemma SumTellsApart(e: bv48, key: bv48, key': bv48, x: bv48, y: bv48)
    requires x == e ^ key && y == e ^ key' && x ^ y == 0
    ensures key == key'
  {
  }

  lemma PartsTellApart(e: bv48, key: bv48, key': bv48, x: bv48, y: bv48, u: bv32, v: bv32, f: bv32, f': bv32)
    requires x == e ^ key && y == e ^ key' && (key ^ key') & ROW_BITS == 0
    requires u == SubstituteAll(x) && v == SubstituteAll(y) && f == Permute(u) && f' == Permute(v)
    requires f ^ f' == 0
    ensures key == key'
  {
    hide *;
    SumKeepsRows(e, key, key', x, y);
    PermuteSum(u, v, f, f');
    SubstitutionTellsApart(x, y);
    SumTellsApart(e, key, key', x, y);
  }

  lemma PartsOfF(r: bv32, key: bv48, f: bv32) returns (e: bv48, x: bv48, u: bv32)
    requires f == F(r, key)
    ensures e == Expand(r) && x == e ^ key && u == SubstituteAll(x) && f == Permute(u)
  {
    hide Expand, Permute, SubstituteAll;
    e := Expand(r);
    x := e ^ key;
    u := SubstituteAll(x);
  }

  /** For a half and a choice of table rows, the round function tells any two sub-keys apart. */
  lemma FTellsKeysApart(r: bv32, key: bv48, key': bv48, f: bv32)
    requires (key ^ key') & ROW_BITS == 0 && f == F(r, key) && f == F(r, key')
    ensures key == key'
  {
    hide *;
    var e, x, u := PartsOfF(r, key, f);
    var e', y, v := PartsOfF(r, key', f);
    PartsTellApart(e, key, key', x, y, u, v, f, f);
  }

  // ---------- The key schedule ----------

  lemma TurnTwoIsOneTwice()
    ensures TwoIsOneTwice(DES.schedule)
  {
    forall k ensures DES.schedule.turn(k, 2) == DES.schedule.turn(DES.schedule.turn(k, 1), 1) {
      ShiftTwice(k.c);
      ShiftTwice(k.d);
    }
  }

  function RotateBy(x: bv28, n: nat): bv28 {
    if n == 0 then x else ShiftLeft1(RotateBy(x, n - 1))
  }

  lemma {:induction false} TurnedIsRotation(k: KeyHalves, n: nat)
    ensures Turned(DES.schedule, k, n) == KeyHalves(RotateBy(k.c, n), RotateBy(k.d, n))
  {
    if n == 0 {
    } else {
      TurnedIsRotation(k, n - 1);
    }
  }

  lemma {:induction false} RotateBySum(x: bv28, m: nat, n: nat)
    ensures RotateBy(x, m + n) == RotateBy(RotateBy(x, m), n)
  {
    if n == 0 {
    } else {
      RotateBySum(x, m, n - 1);
    }
  }

  lemma RotateBySeven(x: bv28)
    ensures RotateBy(x, 7) == (x << 7) | (x >> 21)
  {
    assert RotateBy(x, 1) == (x << 1) | (x >> 27);
    assert RotateBy(x, 2) == (x << 2) | (x >> 26);
    assert RotateBy(x, 3) == (x << 3) | (x >> 25);
    assert RotateBy(x, 4) == (x << 4) | (x >> 24);
    assert RotateBy(x, 5) == (x << 5) | (x >> 23);
    assert RotateBy(x, 6) == (x << 6) | (x >> 22);
  }

  /** Twenty-eight rotations bring a 28-bit register back to where it was. */
  lemma FullRotation(x: bv28)
    ensures RotateBy(x, 28) == x
  {
    var x1 := RotateBy(x, 7);
    var x2 := RotateBy(x1, 7);
    var x3 := RotateBy(x2, 7);
    RotateBySum(x, 7, 21);
    RotateBySum(x1, 7, 14);
    RotateBySum(x2, 7, 7);
    RotateBySeven(x);
    RotateBySeven(x1);
    RotateBySeven(x2);
    RotateBySeven(x3);
  }

  /** The sixteen rotations bring both key registers back to where they started. */
  lemma ScheduleCloses(k: KeyHalves)
    ensures After(DES.schedule, k, ROUNDS) == k
  {
    TurnTwoIsOneTwice();
    SixteenRoundsAre28(DES.schedule, k);
    TurnedIsRotation(k, 28);
    FullRotation(k.c);
    FullRotation(k.d);
  }

  function ShiftRight1(x: bv28): bv28 {
    (x >> 1) | (x << 27)
  }

  function ShiftRight2(x: bv28): bv28 {
    (x >> 2) | (x << 26)
  }

  function TurnBack(k: KeyHalves, n: nat): KeyHalves {
    if n == 1 then KeyHalves(ShiftRight1(k.c), ShiftRight1(k.d))
    else KeyHalves(ShiftRight2(k.c), ShiftRight2(k.d))
  }

  lemma ShiftRightUndoes(x: bv28)
    ensures ShiftRight1(ShiftLeft1(x)) == x
    ensures ShiftRight2(ShiftLeft2(x)) == x
  {
  }

  /** Right rotations of the same `PC_1` output generate the sub-keys in reverse order. */
  lemma RightRotationsReverse(key: bv64, j: nat)
    requires 1 <= j <= ROUNDS
    ensures Select(DecipherAfter(TurnBack, LoadKey(key), j)) == Reverse(SubKeysOf(DES, key))[j - 1]
  {
    forall k, n ensures TurnBack(DES.schedule.turn(k, n), n) == k {
      ShiftRightUndoes(k.c);
      ShiftRightUndoes(k.d);
    }
    ScheduleCloses(LoadKey(key));
    DecipherSelects(DES.schedule, TurnBack, LoadKey(key), j);
  }

  // ---------- Dual and self-dual keys ----------

  /** Keys whose registers have period two and are one place apart undo each other. */
  lemma SemiWeakKeysInvert(block: bv64, key1: bv64, key2: bv64)
    requires Turn(Turn(LoadKey(key1), 1), 1) == LoadKey(key1)
    requires LoadKey(key2) == Turn(LoadKey(key1), 1)
    ensures Encrypt(DES, Encrypt(DES, block, key1), key2) == block
  {
    DesIsInvertible();
    TurnTwoIsOneTwice();
    DualKeysInvert(DES, block, key1, key2);
  }

  ghost predicate Constant(x: bv28) {
    x == 0 || x == 0xFFF_FFFF
  }

  lemma ConstantIsStill(x: bv28)
    requires Constant(x)
    ensures ShiftLeft1(x) == x
  {
  }

  /** When each key register is all zeros or all ones, enciphering twice returns the block. */
  lemma WeakKeysInvertThemselves(block: bv64, key: bv64)
    requires Constant(KeyLeft(key)) && Constant(KeyRight(key))
    ensures Encrypt(DES, Encrypt(DES, block, key), key) == block
  {
    ConstantIsStill(KeyLeft(key));
    ConstantIsStill(KeyRight(key));
    SemiWeakKeysInvert(block, key, key);
  }

  // ---------- Complementation ----------

  const OPPOSITE: Symmetry<bv64, bv32, KeyHalves, bv48> :=
    Symmetry(Opposite64, Opposite32, OppositeRegisters, Opposite48)

  predicate OppositeRegisters(j: KeyHalves, k: KeyHalves) {
    Opposite28(j.c, k.c) && Opposite28(j.d, k.d)
  }

  lemma OppositeKeptByMix()
    ensures KeptByMix(DES.net, OPPOSITE.word)
  {
    forall a, b, x | OPPOSITE.word(a, b) ensures OPPOSITE.word(DES.net.mix(a, x), DES.net.mix(b, x)) {
      XorOpposite(a, b, x, DES.net.mix(a, x), DES.net.mix(b, x));
    }
  }

  /** The expansion and the key mixing cancel the two complements before the substitution. */
  lemma FComplement(r: bv32, s: bv32, key: bv48, key': bv48)
    requires Opposite32(r, s) && Opposite48(key, key')
    ensures F(r, key) == F(s, key')
  {
    hide Expand, Permute, SubstituteAll;
    ExpandOpposite(r, s, Expand(r), Expand(s));
    XorOpposites(Expand(r), Expand(s), key, key');
  }

  lemma OppositeErasedByF()
    ensures ErasedByF(DES.net, OPPOSITE.word, OPPOSITE.subKey)
  {
    forall r, s, a, b | OPPOSITE.word(r, s) && OPPOSITE.subKey(a, b) ensures DES.net.f(r, a) == DES.net.f(s, b) {
      FComplement(r, s, a, b);
    }
  }

  lemma TurnOppositeOne(j: KeyHalves, k: KeyHalves, j': KeyHalves, k': KeyHalves)
    requires OppositeRegisters(j, k) && j' == Turn(j, 1) && k' == Turn(k, 1)
    ensures OppositeRegisters(j', k')
  {
    ShiftOneOpposite(j.c, k.c, j'.c, k'.c);
    ShiftOneOpposite(j.d, k.d, j'.d, k'.d);
  }

  lemma TurnOppositeTwo(j: KeyHalves, k: KeyHalves, j': KeyHalves, k': KeyHalves)
    requires OppositeRegisters(j, k) && j' == Turn(j, 2) && k' == Turn(k, 2)
    ensures OppositeRegisters(j', k')
  {
    ShiftTwoOpposite(j.c, k.c, j'.c, k'.c);
    ShiftTwoOpposite(j.d, k.d, j'.d, k'.d);
  }

  lemma OppositeKeptByTurn()
    ensures KeptByTurn(DES.schedule, OPPOSITE.register)
  {
    forall j, k, n | OPPOSITE.register(j, k)
      ensures OPPOSITE.register(DES.schedule.turn(j, n), DES.schedule.turn(k, n))
    {
      if n == 1 {
        TurnOppositeOne(j, k, Turn(j, n), Turn(k, n));
      } else {
        TurnOppositeTwo(j, k, Turn(j, n), Turn(k, n));
      }
    }
  }

  lemma SelectOpposite(j: KeyHalves, k: KeyHalves, a: bv48, b: bv48)
    requires OppositeRegisters(j, k) && a == Select(j) && b == Select(k)
    ensures Opposite48(a, b)
  {
    JoinOpposite28(j.c, j.d, k.c, k.d, Join28(j.c, j.d), Join28(k.c, k.d));
    RoundKeyOpposite(Join28(j.c, j.d), Join28(k.c, k.d), a, b);
  }

  lemma OppositeKeptBySelect()
    ensures KeptBySelect(DES.schedule, OPPOSITE.register, OPPOSITE.subKey)
  {
    forall j, k | OPPOSITE.register(j, k) ensures OPPOSITE.subKey(DES.schedule.select(j), DES.schedule.select(k)) {
      SelectOpposite(j, k, Select(j), Select(k));
    }
  }

  lemma LoadOpposite(a: bv64, b: bv64, g: Halves<bv32>, h: Halves<bv32>)
    requires Opposite64(a, b) && g == LoadBlock(a) && h == LoadBlock(b)
    ensures Opposite32(g.l, h.l) && Opposite32(g.r, h.r)
  {
    InitialLeftOpposite(a, b, g.l, h.l);
    InitialRightOpposite(a, b, g.r, h.r);
  }

  lemma LoadKeyOpposite(a: bv64, b: bv64, j: KeyHalves, k: KeyHalves)
    requires Opposite64(a, b) && j == LoadKey(a) && k == LoadKey(b)
    ensures OppositeRegisters(j, k)
  {
    KeyLeftOpposite(a, b, j.c, k.c);
    KeyRightOpposite(a, b, j.d, k.d);
  }

  lemma UnloadOpposite(g: Halves<bv32>, h: Halves<bv32>, a: bv64, b: bv64)
    requires Opposite32(g.l, h.l) && Opposite32(g.r, h.r) && a == Unload(g) && b == Unload(h)
    ensures Opposite64(a, b)
  {
    JoinOpposite32(g.r, g.l, h.r, h.l, Join32(g.r, g.l), Join32(h.r, h.l));
    FinalOpposite(Join32(g.r, g.l), Join32(h.r, h.l), a, b);
  }

  lemma OppositeIsSymmetry()
    ensures IsSymmetry(DES, OPPOSITE)
  {
    OppositeKeptByMix();
    OppositeErasedByF();
    OppositeKeptByTurn();
    OppositeKeptBySelect();
    forall a, b | OPPOSITE.block(a, b) ensures RelatedHalves(OPPOSITE.word, DES.load(a), DES.load(b)) {
      LoadOpposite(a, b, DES.load(a), DES.load(b));
    }
    forall a, b | OPPOSITE.block(a, b) ensures OPPOSITE.register(DES.loadKey(a), DES.loadKey(b)) {
      LoadKeyOpposite(a, b, DES.loadKey(a), DES.loadKey(b));
    }
    forall g, h | RelatedHalves(OPPOSITE.word, g, h) ensures OPPOSITE.block(DES.unload(g), DES.unload(h)) {
      UnloadOpposite(g, h, DES.unload(g), DES.unload(h));
    }
  }

  lemma ComplementOfRelated<W(!new), R(!new), K(!new)>(d: Design<bv64, W, R, K>, m: Symmetry<bv64, W, R, K>,
      block: bv64, key: bv64)
    requires IsSymmetry(d, m) && m.block == Opposite64
    ensures Encrypt(d, !block, !key) == !Encrypt(d, block, key)
  {
    ComplementIsOpposite(block, !block);
    ComplementIsOpposite(key, !key);
    EncryptRelated(d, m, block, !block, key, !key);
    OppositeIsComplement(Encrypt(d, block, key), Encrypt(d, !block, !key));
  }

  /** Enciphering the complement under the complemented key gives the complement. */
  lemma Complementation(block: bv64, key: bv64)
    ensures Encrypt(DES, !block, !key) == !Encrypt(DES, block, key)
  {
    OppositeIsSymmetry();
    ComplementOfRelated(DES, OPPOSITE, block, key);
  }

  // ---------- Parity bits ----------

  /** The keys differ at most in the bits that `PC_1` leaves out. */
  predicate SameButParity(key: bv64, key': bv64) {
    (key ^ key') & KEY_BITS == 0
  }

  lemma SameKeyLoaded(key: bv64, key': bv64, j: KeyHalves, k: KeyHalves)
    requires SameButParity(key, key') && j == LoadKey(key) && k == LoadKey(key')
    ensures j == k
  {
    KeyIgnoresParity(key, key', j.c, k.c, j.d, k.d);
  }

  lemma LoadsWithLoadKey(key: bv64, k: KeyHalves)
    requires k == DES.loadKey(key)
    ensures k == LoadKey(key)
  {
  }

  lemma SameButParityLoadsSame(key: bv64, key': bv64, j: KeyHalves, k: KeyHalves)
    requires SameButParity(key, key') && j == DES.loadKey(key) && k == DES.loadKey(key')
    ensures j == k
  {
    LoadsWithLoadKey(key, j);
    LoadsWithLoadKey(key', k);
    SameKeyLoaded(key, key', j, k);
  }

  lemma SameLoadedSameCipher<B, W, R, K>(d: Design<B, W, R, K>, block: B, key: B, key': B)
    requires d.loadKey(key) == d.loadKey(key')
    ensures Encrypt(d, block, key) == Encrypt(d, block, key')
  {
  }

  /** Keys that differ only in their parity bits are the same key: 56 bits take part. */
  lemma ParityBitsIgnored(block: bv64, key: bv64, key': bv64)
    requires SameButParity(key, key')
    ensures Encrypt(DES, block, key) == Encrypt(DES, block, key')
  {
    hide *;
    SameButParityLoadsSame(key, key', DES.loadKey(key), DES.loadKey(key'));
    SameLoadedSameCipher(DES, block, key, key');
  }
}
