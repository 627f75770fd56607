/**
  An anchor for the tables and the wiring: the block and key of the test bench, worked through round by round. It is
  one example; the theorems about the cipher are in `Des`.
 */
module DesKnownAnswer {
  import opened BlockCipher
  import opened Des
  import opened Feistel
  import opened KeySchedule

  const BLOCK: bv64 := 0x0012_3456_789A_BCDE
  const KEY: bv64 := 0x0133_4577_99BB_CDFF

  lemma Reached0()
    ensures Reached(DES, BLOCK, KEY, 0, Halves(0x98FECC00, 0xE054F0AA), KeyHalves(0xF0CCAAB, 0xAACCF0A))
  {
  }

  lemma Reached2()
    ensures Reached(DES, BLOCK, KEY, 2, Halves(0x0F2FAD9A, 0x681C7DA1), KeyHalves(0xC332AAF, 0xAB33C2A))
  {
    hide Reached;
    Reached0();
    var h, k := Halves(0xE054F0AA, 0x0F2FAD9A), KeyHalves(0xE199557, 0x5599E15);
    OneRound(DES, BLOCK, KEY, 1, Halves(0x98FECC00, 0xE054F0AA), KeyHalves(0xF0CCAAB, 0xAACCF0A), h, k);
    OneRound(DES, BLOCK, KEY, 2, h, k, Halves(0x0F2FAD9A, 0x681C7DA1), KeyHalves(0xC332AAF, 0xAB33C2A));
  }

  lemma Reached4()
    ensures Reached(DES, BLOCK, KEY, 4, Halves(0xD5148B08, 0x9C552D13), KeyHalves(0x332AAFC, 0xB33C2AA))
  {
    hide Reached;
    Reached2();
    var h, k := Halves(0x681C7DA1, 0xD5148B08), KeyHalves(0x0CCAABF, 0xACCF0AA);
    OneRound(DES, BLOCK, KEY, 3, Halves(0x0F2FAD9A, 0x681C7DA1), KeyHalves(0xC332AAF, 0xAB33C2A), h, k);
    OneRound(DES, BLOCK, KEY, 4, h, k, Halves(0xD5148B08, 0x9C552D13), KeyHalves(0x332AAFC, 0xB33C2AA));
  }

  lemma Reached6()
    ensures Reached(DES, BLOCK, KEY, 6, Halves(0x0D26BCF5, 0x33911636), KeyHalves(0x32AAFC3, 0x33C2AAB))
  {
    hide Reached;
    Reached4();
    var h, k := Halves(0x9C552D13, 0x0D26BCF5), KeyHalves(0xCCAABF0, 0xCCF0AAA);
    OneRound(DES, BLOCK, KEY, 5, Halves(0xD5148B08, 0x9C552D13), KeyHalves(0x332AAFC, 0xB33C2AA), h, k);
    OneRound(DES, BLOCK, KEY, 6, h, k, Halves(0x0D26BCF5, 0x33911636), KeyHalves(0x32AAFC3, 0x33C2AAB));
  }

  lemma Reached8()
    ensures Reached(DES, BLOCK, KEY, 8, Halves(0x43779F57, 0x5F6CFA8E), KeyHalves(0x2AAFC33, 0x3C2AAB3))
  {
    hide Reached;
    Reached6();
    var h, k := Halves(0x33911636, 0x43779F57), KeyHalves(0xCAABF0C, 0xCF0AAAC);
    OneRound(DES, BLOCK, KEY, 7, Halves(0x0D26BCF5, 0x33911636), KeyHalves(0x32AAFC3, 0x33C2AAB), h, k);
    OneRound(DES, BLOCK, KEY, 8, h, k, Halves(0x43779F57, 0x5F6CFA8E), KeyHalves(0x2AAFC33, 0x3C2AAB3));
  }

  lemma Reached10()
    ensures Reached(DES, BLOCK, KEY, 10, Halves(0xB8719FE6, 0x8A79F26A), KeyHalves(0x557E199, 0xE155599))
  {
    hide Reached;
    Reached8();
    var h, k := Halves(0x5F6CFA8E, 0xB8719FE6), KeyHalves(0x555F866, 0x7855566);
    OneRound(DES, BLOCK, KEY, 9, Halves(0x43779F57, 0x5F6CFA8E), KeyHalves(0x2AAFC33, 0x3C2AAB3), h, k);
    OneRound(DES, BLOCK, KEY, 10, h, k, Halves(0xB8719FE6, 0x8A79F26A), KeyHalves(0x557E199, 0xE155599));
  }

  lemma Reached12()
    ensures Reached(DES, BLOCK, KEY, 12, Halves(0x4487EEA0, 0xFA3651CF), KeyHalves(0x57E1995, 0x155599E))
  {
    hide Reached;
    Reached10();
    var h, k := Halves(0x8A79F26A, 0x4487EEA0), KeyHalves(0x55F8665, 0x8555667);
    OneRound(DES, BLOCK, KEY, 11, Halves(0xB8719FE6, 0x8A79F26A), KeyHalves(0x557E199, 0xE155599), h, k);
    OneRound(DES, BLOCK, KEY, 12, h, k, Halves(0x4487EEA0, 0xFA3651CF), KeyHalves(0x57E1995, 0x155599E));
  }

  lemma Reached14()
    ensures Reached(DES, BLOCK, KEY, 14, Halves(0x3F79C6A6, 0x9FCA2B87), KeyHalves(0x7E19955, 0x55599E1))
  {
    hide Reached;
    Reached12();
    var h, k := Halves(0xFA3651CF, 0x3F79C6A6), KeyHalves(0x5F86655, 0x5556678);
    OneRound(DES, BLOCK, KEY, 13, Halves(0x4487EEA0, 0xFA3651CF), KeyHalves(0x57E1995, 0x155599E), h, k);
    OneRound(DES, BLOCK, KEY, 14, h, k, Halves(0x3F79C6A6, 0x9FCA2B87), KeyHalves(0x7E19955, 0x55599E1));
  }

  lemma Reached16()
    ensures Reached(DES, BLOCK, KEY, 16, Halves(0x6E46DBB7, 0x543F0EAA), KeyHalves(0xF0CCAAB, 0xAACCF0A))
  {
    hide Reached;
    Reached14();
    var h, k := Halves(0x9FCA2B87, 0x6E46DBB7), KeyHalves(0xF866555, 0x5566785);
    OneRound(DES, BLOCK, KEY, 15, Halves(0x3F79C6A6, 0x9FCA2B87), KeyHalves(0x7E19955, 0x55599E1), h, k);
    OneRound(DES, BLOCK, KEY, 16, h, k, Halves(0x6E46DBB7, 0x543F0EAA), KeyHalves(0xF0CCAAB, 0xAACCF0A));
  }

  lemma KnownAnswer()
    ensures Encrypt(DES, BLOCK, KEY) == 0x1ABF_F69D_5A93_E80B
  {
    hide Rounds, SubKeys, After;
    Reached16();
    assert Unload(Halves(0x6E46DBB7, 0x543F0EAA)) == 0x1ABF_F69D_5A93_E80B;
  }
}
