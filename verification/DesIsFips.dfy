/** For every block and every key, the cipher of the circuit is the Data Encryption Standard as it is printed. */
module DesIsFips {
  import opened DesWiring
  import opened DesSBox
  import opened Feistel
  import opened KeySchedule
  import opened BlockCipher
  import opened Des
  import Fips

  // ---------- The wiring ----------

  lemma InitialAgrees(x: bv64)
    ensures Join32(InitialLeft(x), InitialRight(x)) == Fips.InitialPermutation(x)
  {
  }

  lemma FinalAgrees(x: bv64)
    ensures FinalPermutation(x) == Fips.InverseInitial(x)
  {
  }

  lemma ExpandAgrees(r: bv32)
    ensures Expand(r) == Fips.E(r)
  {
  }

  lemma PermuteAgrees(s: bv32)
    ensures Permute(s) == Fips.P(s)
  {
  }

  lemma KeyAgrees(x: bv64)
    ensures Join28(KeyLeft(x), KeyRight(x)) == Fips.PermutedChoice1(x)
  {
  }

  lemma SelectAgrees(cd: bv56)
    ensures RoundKey(cd) == Fips.PermutedChoice2(cd)
  {
  }

  lemma TurnAgrees(c: bv28)
    ensures ShiftLeft1(c) == Fips.LeftShift(c, 1)
    ensures ShiftLeft2(c) == Fips.LeftShift(c, 2)
  {
  }

  // ---------- The tables ----------

  lemma S1Agrees(b: bv6)
    ensures Substitute(S1, b) == Fips.S1(b)
  {
    var row := Fips.RowOf(b);
    if row == 0 {
    } else if row == 1 {
    } else if row == 2 {
    } else {
    }
  }

  lemma S2Agrees(b: bv6)
    ensures Substitute(S2, b) == Fips.S2(b)
  {
    var row := Fips.RowOf(b);
    if row == 0 {
    } else if row == 1 {
    } else if row == 2 {
    } else {
    }
  }

  lemma S3Agrees(b: bv6)
    ensures Substitute(S3, b) == Fips.S3(b)
  {
    var row := Fips.RowOf(b);
    if row == 0 {
    } else if row == 1 {
    } else if row == 2 {
    } else {
    }
  }

  lemma S4Agrees(b: bv6)
    ensures Substitute(S4, b) == Fips.S4(b)
  {
    var row := Fips.RowOf(b);
    if row == 0 {
    } else if row == 1 {
    } else if row == 2 {
    } else {
    }
  }

  lemma S5Agrees(b: bv6)
    ensures Substitute(S5, b) == Fips.S5(b)
  {
    var row := Fips.RowOf(b);
    if row == 0 {
    } else if row == 1 {
    } else if row == 2 {
    } else {
    }
  }

  lemma S6Agrees(b: bv6)
    ensures Substitute(S6, b) == Fips.S6(b)
  {
    var row := Fips.RowOf(b);
    if row == 0 {
    } else if row == 1 {
    } else if row == 2 {
    } else {
    }
  }

  lemma S7Agrees(b: bv6)
    ensures Substitute(S7, b) == Fips.S7(b)
  {
    var row := Fips.RowOf(b);
    if row == 0 {
    } else if row == 1 {
    } else if row == 2 {
    } else {
    }
  }

  lemma S8Agrees(b: bv6)
    ensures Substitute(S8, b) == Fips.S8(b)
  {
    var row := Fips.RowOf(b);
    if row == 0 {
    } else if row == 1 {
    } else if row == 2 {
    } else {
    }
  }

  lemma GroupsAgree(x: bv48)
    ensures Group(x, 42) == Fips.Block(x, 1) && Group(x, 36) == Fips.Block(x, 2)
    ensures Group(x, 30) == Fips.Block(x, 3) && Group(x, 24) == Fips.Block(x, 4)
    ensures Group(x, 18) == Fips.Block(x, 5) && Group(x, 12) == Fips.Block(x, 6)
    ensures Group(x, 6) == Fips.Block(x, 7) && Group(x, 0) == Fips.Block(x, 8)
  {
  }

  lemma BlocksAgree(a: bv4, b: bv4, c: bv4, d: bv4, e: bv4, f: bv4, g: bv4, h: bv4)
    ensures Stack8x4(a, b, c, d, e, f, g, h) == Fips.Blocks(a, b, c, d, e, f, g, h)
  {
  }

  lemma TablesAgree(x: bv48)
    ensures SubstituteAll(x)
         == Fips.Blocks(Fips.S1(Fips.Block(x, 1)), Fips.S2(Fips.Block(x, 2)), Fips.S3(Fips.Block(x, 3)),
                        Fips.S4(Fips.Block(x, 4)), Fips.S5(Fips.Block(x, 5)), Fips.S6(Fips.Block(x, 6)),
                        Fips.S7(Fips.Block(x, 7)), Fips.S8(Fips.Block(x, 8)))
  {
    hide Substitute, Group, Stack8x4, Fips.Block, Fips.Blocks;
    hide Fips.S1, Fips.S2, Fips.S3, Fips.S4, Fips.S5, Fips.S6, Fips.S7, Fips.S8;
    GroupsAgree(x);
    S1Agrees(Group(x, 42));
    S2Agrees(Group(x, 36));
    S3Agrees(Group(x, 30));
    S4Agrees(Group(x, 24));
    S5Agrees(Group(x, 18));
    S6Agrees(Group(x, 12));
    S7Agrees(Group(x, 6));
    S8Agrees(Group(x, 0));
    BlocksAgree(Substitute(S1, Group(x, 42)), Substitute(S2, Group(x, 36)), Substitute(S3, Group(x, 30)),
                Substitute(S4, Group(x, 24)), Substitute(S5, Group(x, 18)), Substitute(S6, Group(x, 12)),
                Substitute(S7, Group(x, 6)), Substitute(S8, Group(x, 0)));
  }

  /** The round function. */
  lemma FAgrees(r: bv32, k: bv48)
    ensures F(r, k) == Fips.F(r, k)
  {
    hide Expand, Permute, SubstituteAll, Fips.E, Fips.P, Fips.Block, Fips.Blocks;
    hide Fips.S1, Fips.S2, Fips.S3, Fips.S4, Fips.S5, Fips.S6, Fips.S7, Fips.S8;
    ExpandAgrees(r);
    var x := Expand(r) ^ k;
    TablesAgree(x);
    PermuteAgrees(SubstituteAll(x));
  }

  // ---------- The key schedule and the rounds ----------

  lemma JoinedHalves(l: bv32, r: bv32)
    ensures (Join32(l, r) >> 32) as bv32 == l && (Join32(l, r) & 0xFFFF_FFFF) as bv32 == r
  {
  }

  lemma JoinedRegisters(c: bv28, d: bv28)
    ensures (Join28(c, d) >> 28) as bv28 == c && (Join28(c, d) & 0xFFF_FFFF) as bv28 == d
  {
  }

  lemma ShiftsAgree(n: nat)
    requires 0 < n <= 16
    ensures RotationOf(n) == Fips.SHIFTS[n - 1]
  {
  }

  lemma LoadedAgrees(block: bv64, key: bv64)
    ensures LoadBlock(block) == Halves(Fips.L(block, key, 0), Fips.R(block, key, 0))
    ensures LoadKey(key) == KeyHalves(Fips.C(key, 0), Fips.D(key, 0))
  {
    hide InitialLeft, InitialRight, Join32, Fips.InitialPermutation;
    hide KeyLeft, KeyRight, Join28, Fips.PermutedChoice1;
    InitialAgrees(block);
    JoinedHalves(InitialLeft(block), InitialRight(block));
    KeyAgrees(key);
    JoinedRegisters(KeyLeft(key), KeyRight(key));
  }

  lemma RegistersAgree(key: bv64, n: nat)
    requires 0 < n <= ROUNDS
    ensures Turn(KeyHalves(Fips.C(key, n - 1), Fips.D(key, n - 1)), RotationOf(n))
         == KeyHalves(Fips.C(key, n), Fips.D(key, n))
  {
    hide ShiftLeft1, ShiftLeft2, RotationOf, Fips.LeftShift;
    ShiftsAgree(n);
    TurnAgrees(Fips.C(key, n - 1));
    TurnAgrees(Fips.D(key, n - 1));
  }

  lemma SubKeyAgrees(key: bv64, n: nat)
    requires n <= ROUNDS
    ensures Select(KeyHalves(Fips.C(key, n), Fips.D(key, n))) == Fips.K(key, n)
  {
    hide RoundKey, Fips.PermutedChoice2, Fips.C, Fips.D;
    SelectAgrees(Join28(Fips.C(key, n), Fips.D(key, n)));
  }

  lemma RoundAgrees(block: bv64, key: bv64, n: nat)
    requires 0 < n <= ROUNDS
    ensures Round(Network(Xor, F), Halves(Fips.L(block, key, n - 1), Fips.R(block, key, n - 1)), Fips.K(key, n))
         == Halves(Fips.L(block, key, n), Fips.R(block, key, n))
  {
    hide F, Fips.F, Fips.K;
    FAgrees(Fips.R(block, key, n - 1), Fips.K(key, n));
  }

  /** The halves and the key registers after any number of rounds. */
  lemma {:induction false} ReachedAgrees(block: bv64, key: bv64, n: nat)
    requires n <= ROUNDS
    ensures Reached(DES, block, key, n, Halves(Fips.L(block, key, n), Fips.R(block, key, n)),
                    KeyHalves(Fips.C(key, n), Fips.D(key, n)))
  {
    hide LoadBlock, LoadKey, Turn, Select, F, Round, RotationOf, Fips.L, Fips.R, Fips.C, Fips.D, Fips.K;
    if n == 0 {
      LoadedAgrees(block, key);
    } else {
      hide Reached;
      ReachedAgrees(block, key, n - 1);
      RegistersAgree(key, n);
      SubKeyAgrees(key, n);
      RoundAgrees(block, key, n);
      OneRound(DES, block, key, n,
               Halves(Fips.L(block, key, n - 1), Fips.R(block, key, n - 1)),
               KeyHalves(Fips.C(key, n - 1), Fips.D(key, n - 1)),
               Halves(Fips.L(block, key, n), Fips.R(block, key, n)), KeyHalves(Fips.C(key, n), Fips.D(key, n)));
    }
  }

  lemma UnloadedAgrees(l: bv32, r: bv32)
    ensures Unload(Halves(l, r)) == Fips.InverseInitial(((r as bv64) << 32) | l as bv64)
  {
    hide FinalPermutation, Fips.InverseInitial;
    FinalAgrees(Join32(r, l));
  }

  /** For every block and every key. */
  lemma EncryptIsFips(block: bv64, key: bv64)
    ensures Encrypt(DES, block, key) == Fips.Encipher(block, key)
  {
    hide Unload, Rounds, SubKeys, Fips.InverseInitial, Fips.L, Fips.R, Fips.C, Fips.D;
    ReachedAgrees(block, key, 16);
    UnloadedAgrees(Fips.L(block, key, 16), Fips.R(block, key, 16));
  }
}
