/** A block cipher put together from a Feistel network, a key schedule and the wiring around them. */
module BlockCipher {
  import opened Feistel
  import opened KeySchedule

  /** `unload` includes the exchange of the halves before the final permutation. */
  datatype Design<!B, !W, !R, !K> = Design(
    net: Network<W, K>,
    schedule: Schedule<R, K>,
    load: B -> Halves<W>,
    unload: Halves<W> -> B,
    loadKey: B -> R)

  function Cipher<B, W, R, K>(d: Design<B, W, R, K>, block: B, keys: seq<K>): B {
    d.unload(Rounds(d.net, d.load(block), keys))
  }

  function SubKeysOf<B, W, R, K>(d: Design<B, W, R, K>, key: B): seq<K> {
    SubKeys(d.schedule, d.loadKey(key), ROUNDS)
  }

  /** "Enciphering" */
  function Encrypt<B, W, R, K>(d: Design<B, W, R, K>, block: B, key: B): B {
    Cipher(d, block, SubKeysOf(d, key))
  }

  /** "Deciphering": the same computation under the sub-keys in reverse order. */
  function Decrypt<B, W, R, K>(d: Design<B, W, R, K>, block: B, key: B): B {
    Cipher(d, block, Reverse(SubKeysOf(d, key)))
  }

  /** One more round takes one more turn of the key register. */
  lemma OneMoreRound<B, W, R, K>(d: Design<B, W, R, K>, h: Halves<W>, k: R, i: nat)
    requires i > 0
    ensures After(d.schedule, k, i) == d.schedule.turn(After(d.schedule, k, i - 1), RotationOf(i))
    ensures Rounds(d.net, h, SubKeys(d.schedule, k, i))
         == Round(d.net, Rounds(d.net, h, SubKeys(d.schedule, k, i - 1)), d.schedule.select(After(d.schedule, k, i)))
  {
    assert SubKeys(d.schedule, k, i)[..i - 1] == SubKeys(d.schedule, k, i - 1);
  }

  /** After `n` rounds of a block and a key, the halves and the key register. */
  ghost predicate Reached<B, W, R, K>(d: Design<B, W, R, K>, block: B, key: B, n: nat, h: Halves<W>, k: R) {
    && Rounds(d.net, d.load(block), SubKeys(d.schedule, d.loadKey(key), n)) == h
    && After(d.schedule, d.loadKey(key), n) == k
  }

  lemma OneRound<B, W, R, K>(d: Design<B, W, R, K>, block: B, key: B, n: nat, h: Halves<W>, k: R, h': Halves<W>, k': R)
    requires n > 0 && Reached(d, block, key, n - 1, h, k)
    requires k' == d.schedule.turn(k, RotationOf(n)) && h' == Round(d.net, h, d.schedule.select(k'))
    ensures Reached(d, block, key, n, h', k')
  {
    OneMoreRound(d, d.load(block), d.loadKey(key), n);
  }

  ghost predicate Invertible<B(!new), W(!new), R, K>(d: Design<B, W, R, K>) {
    && MixCancels(d.net)
    && (forall h :: d.load(d.unload(h)) == h.Swap())
    && (forall b :: d.unload(d.load(b).Swap()) == b)
  }

  lemma CipherUndone<B(!new), W(!new), R, K>(d: Design<B, W, R, K>, block: B, keys: seq<K>)
    requires Invertible(d)
    ensures Cipher(d, Cipher(d, block, keys), Reverse(keys)) == block
  {
    var h := Rounds(d.net, d.load(block), keys);
    assert d.load(d.unload(h)) == h.Swap();
    RoundsUndone(d.net, d.load(block), keys);
  }

  lemma DecryptInverts<B(!new), W(!new), R, K>(d: Design<B, W, R, K>, block: B, key: B)
    requires Invertible(d)
    ensures Decrypt(d, Encrypt(d, block, key), key) == block
    ensures Encrypt(d, Decrypt(d, block, key), key) == block
  {
    CipherUndone(d, block, SubKeysOf(d, key));
    CipherUndone(d, block, Reverse(SubKeysOf(d, key)));
    ReverseTwice(SubKeysOf(d, key));
  }

  /** Two keys are dual when their registers are one place apart and have period two. */
  ghost predicate Dual<B, W, R, K>(d: Design<B, W, R, K>, key1: B, key2: B) {
    && d.loadKey(key2) == d.schedule.turn(d.loadKey(key1), 1)
    && d.loadKey(key1) == d.schedule.turn(d.loadKey(key2), 1)
  }

  /** Enciphering under one of two dual keys deciphers under the other. */
  lemma DualKeysInvert<B(!new), W(!new), R(!new), K>(d: Design<B, W, R, K>, block: B, key1: B, key2: B)
    requires Invertible(d) && TwoIsOneTwice(d.schedule) && Dual(d, key1, key2)
    ensures Encrypt(d, Encrypt(d, block, key1), key2) == block
  {
    DualSubKeys(d.schedule, d.loadKey(key1), d.loadKey(key2));
    DecryptInverts(d, block, key1);
  }

  /** A symmetry of all the parts. */
  datatype Symmetry<!B, !W, !R, !K> =
    Symmetry(block: Relation<B>, word: Relation<W>, register: Relation<R>, subKey: Relation<K>)

  ghost predicate IsSymmetry<B(!new), W(!new), R(!new), K(!new)>(d: Design<B, W, R, K>, m: Symmetry<B, W, R, K>) {
    && KeptByMix(d.net, m.word) && ErasedByF(d.net, m.word, m.subKey)
    && KeptByTurn(d.schedule, m.register) && KeptBySelect(d.schedule, m.register, m.subKey)
    && (forall a, b {:trigger d.load(a), d.load(b)} :: m.block(a, b) ==> RelatedHalves(m.word, d.load(a), d.load(b)))
    && (forall g, h {:trigger d.unload(g), d.unload(h)} ::
          RelatedHalves(m.word, g, h) ==> m.block(d.unload(g), d.unload(h)))
    && (forall a, b {:trigger d.loadKey(a), d.loadKey(b)} :: m.block(a, b) ==> m.register(d.loadKey(a), d.loadKey(b)))
  }

  /** Related blocks under related keys have related ciphers. */
  lemma EncryptRelated<B(!new), W(!new), R(!new), K(!new)>(d: Design<B, W, R, K>, m: Symmetry<B, W, R, K>,
      block: B, block': B, key: B, key': B)
    requires IsSymmetry(d, m) && m.block(block, block') && m.block(key, key')
    ensures m.block(Encrypt(d, block, key), Encrypt(d, block', key'))
  {
    SubKeysRelated(d.schedule, m.register, m.subKey, d.loadKey(key), d.loadKey(key'), ROUNDS);
    RoundsRelated(d.net, m.word, m.subKey, d.load(block), d.load(block'), SubKeysOf(d, key), SubKeysOf(d, key'));
  }
}
