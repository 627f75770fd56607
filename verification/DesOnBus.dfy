/** The circuit of the repository: DES behind the 32-bit bus. */
module DesOnBus {
  import opened DesWiring
  import opened Feistel
  import opened BlockCipher
  import opened Des
  import opened DesIsFips
  import opened DesKnownAnswer
  import opened KeySchedule
  import opened Pipeline
  import opened AvalonBus
  import opened AvalonProtocol
  import opened AvalonWrapper
  import Fips

  function Join(w: Wide): bv64 {
    Join32(w.hi, w.lo)
  }

  function Split(x: bv64): Wide {
    Wide((x >> 32) as bv32, (x & 0xFFFF_FFFF) as bv32)
  }

  lemma JoinSplit(x: bv64)
    ensures Join(Split(x)) == x
  {
  }

  /** The two words of a 64-bit value: bits 63 to 32, and bits 31 to 0. */
  predicate AreWordsOf(w: Wide, x: bv64) {
    w.hi as bv64 == x >> 32 && w.lo as bv64 == x & 0xFFFF_FFFF
  }

  lemma WordsOfSplit(x: bv64)
    ensures AreWordsOf(Split(x), x)
  {
  }

  lemma SplitOfWords(w: Wide, x: bv64)
    requires AreWordsOf(w, x)
    ensures w == Split(x)
  {
  }

  function LoadWide(w: Wide): Halves<bv32> {
    LoadBlock(Join(w))
  }

  function UnloadWide(h: Halves<bv32>): Wide {
    Split(Unload(h))
  }

  function LoadWideKey(w: Wide): KeyHalves {
    LoadKey(Join(w))
  }

  /** DES with its 64-bit ports cut into bus words. */
  const ON_BUS: Design<Wide, bv32, KeyHalves, bv48> := Design(DES.net, DES.schedule, LoadWide, UnloadWide, LoadWideKey)

  /** The registers are cleared to zero by a reset. */
  const ZERO: Stage<bv32, KeyHalves> := Stage(Halves(0, 0), KeyHalves(0, 0), false)

  lemma SameCipher<B, C, W, R, K>(d: Design<B, W, R, K>, e: Design<C, W, R, K>, block: B, key: B, block': C, key': C)
    requires d.net == e.net && d.schedule == e.schedule
    requires d.load(block) == e.load(block') && d.loadKey(key) == e.loadKey(key')
    ensures Rounds(d.net, d.load(block), SubKeysOf(d, key)) == Rounds(e.net, e.load(block'), SubKeysOf(e, key'))
  {
  }

  /** From the words of block and key the circuit makes the words of their cipher. */
  lemma CipherOnBus(block: bv64, key: bv64, b: Wide, k: Wide)
    requires AreWordsOf(b, block) && AreWordsOf(k, key)
    ensures AreWordsOf(Encrypt(ON_BUS, b, k), Encrypt(DES, block, key))
  {
    hide Join, Split, AreWordsOf;
    SplitOfWords(b, block);
    SplitOfWords(k, key);
    JoinSplit(block);
    JoinSplit(key);
    SameCipher(ON_BUS, DES, b, k, block, key);
    WordsOfSplit(Encrypt(DES, block, key));
  }

  /** One word of a 64-bit register, in its place. */
  function HighWord(x: bv64): bv64 {
    x & 0xFFFF_FFFF_0000_0000
  }

  function LowWord(x: bv64): bv64 {
    x & 0xFFFF_FFFF
  }

  lemma WordsOfJoin(hi: bv32, lo: bv32)
    ensures HighWord(Join32(hi, lo)) == (hi as bv64) << 32 && LowWord(Join32(hi, lo)) == lo as bv64
  {
  }

  lemma JoinedWords(w: Wide, data: bv32)
    ensures Join(w.(lo := data)) == HighWord(Join(w)) | data as bv64
    ensures Join(w.(hi := data)) == ((data as bv64) << 32) | LowWord(Join(w))
  {
    hide HighWord, LowWord;
    WordsOfJoin(w.hi, w.lo);
  }

  /**
    The register map, in terms of the 64-bit registers: addresses 1 and 2 write the low and the high word of the
    plaintext, 3 and 4 those of the key.
   */
  lemma WriteMap(s: Bus<bv32, KeyHalves>, data: bv32)
    requires |s.pipe| == STAGES
    ensures Join(Clock(ON_BUS, s, Write(1, data)).plaintext) == HighWord(Join(s.plaintext)) | data as bv64
    ensures Join(Clock(ON_BUS, s, Write(2, data)).plaintext) == ((data as bv64) << 32) | LowWord(Join(s.plaintext))
    ensures Join(Clock(ON_BUS, s, Write(3, data)).key) == HighWord(Join(s.key)) | data as bv64
    ensures Join(Clock(ON_BUS, s, Write(4, data)).key) == ((data as bv64) << 32) | LowWord(Join(s.key))
  {
    hide Join, Latch, Pipeline.Entry;
    JoinedWords(s.plaintext, data);
    JoinedWords(s.key, data);
  }

  /** Addresses 6 and 5 read the high and the low word of the ciphertext. */
  lemma ReadMap(s: Bus<bv32, KeyHalves>)
    requires |s.pipe| == STAGES
    ensures AreWordsOf(Wide(ReadData(ON_BUS, s, 6), ReadData(ON_BUS, s, 5)), Unload(s.pipe[ROUNDS].halves))
  {
    hide Unload, Split, AreWordsOf;
    WordsOfSplit(Unload(s.pipe[ROUNDS].halves));
  }

  /** The known answer in bus words. */
  lemma KnownAnswerOnBus()
    ensures Encrypt(ON_BUS, Wide(0x0012_3456, 0x789A_BCDE), Wide(0x0133_4577, 0x99BB_CDFF))
         == Wide(0x1ABF_F69D, 0x5A93_E80B)
  {
    hide Encrypt;
    var b, k := Wide(0x0012_3456, 0x789A_BCDE), Wide(0x0133_4577, 0x99BB_CDFF);
    KnownAnswer();
    CipherOnBus(BLOCK, KEY, b, k);
    SplitOfWords(Encrypt(ON_BUS, b, k), Encrypt(DES, BLOCK, KEY));
  }

  /** The circuit after power-on, with the reset line low, is quiet. */
  method PowerOn() returns (w: Wrapper<bv32, KeyHalves, bv48>)
    ensures w.Valid() && w.des.d == ON_BUS && Quiet(w.State()) && fresh(w) && fresh(w.des.stages)
  {
    w := new Wrapper(ON_BUS, ZERO);
  }

  /** One run of the main program against the circuit: from the words of block and key, the words of their cipher. */
  method EncipherBlock(w: Wrapper<bv32, KeyHalves, bv48>, b: Wide, k: Wide, gaps: nat -> nat,
      ghost block: bv64, ghost key: bv64) returns (c: Wide)
    requires w.Valid() && w.des.d == ON_BUS && Quiet(w.State())
    requires AreWordsOf(b, block) && AreWordsOf(k, key)
    modifies w, w.des.stages
    ensures AreWordsOf(c, Fips.Encipher(block, key))
    ensures Quiet(w.State())
  {
    hide AreWordsOf, Encrypt, Fips.Encipher;
    c := w.Encipher(b, k, gaps);
    CipherOnBus(block, key, b, k);
    EncryptIsFips(block, key);
  }

  /** The main program with its own block and key: it always reports success. */
  method RunProgram(w: Wrapper<bv32, KeyHalves, bv48>, gaps: nat -> nat) returns (success: bool)
    requires w.Valid() && w.des.d == ON_BUS && Quiet(w.State())
    modifies w, w.des.stages
    ensures success && Quiet(w.State())
  {
    var ptHigh, ptLow, keyHigh, keyLow := 0x0012_3456, 0x789A_BCDE, 0x0133_4577, 0x99BB_CDFF;
    var ct := w.Encipher(Wide(ptHigh, ptLow), Wide(keyHigh, keyLow), gaps);
    KnownAnswerOnBus();
    success := ct.hi == 0x1ABF_F69D && ct.lo == 0x5A93_E80B;
  }
}
