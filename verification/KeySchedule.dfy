/**
  The key schedule: a key register that turns a little further before every round, and a selection of the
  round's sub-key from it. What the registers hold, and how they turn, is left open.
 */
module KeySchedule {
  import opened Feistel

  datatype Schedule<!R, !K> = Schedule(turn: (R, nat) -> R, select: R -> K)

  const ROUNDS := 16

  /** How far the register turns before round `i`. */
  function RotationOf(i: nat): (n: nat)
    ensures n == 1 || n == 2
  {
    if i == 1 || i == 2 || i == 9 || i == 16 then 1 else 2
  }

  /** The register after the turns of rounds 1 to `i`. */
  function After<R, K>(s: Schedule<R, K>, k: R, i: nat): R {
    if i == 0 then k else s.turn(After(s, k, i - 1), RotationOf(i))
  }

  /** The sub-keys of rounds 1 to `n`. */
  function SubKeys<R, K>(s: Schedule<R, K>, k: R, n: nat): (keys: seq<K>)
    ensures |keys| == n
    ensures forall i :: 0 <= i < n ==> keys[i] == s.select(After(s, k, i + 1))
  {
    if n == 0 then [] else SubKeys(s, k, n - 1) + [s.select(After(s, k, n))]
  }

  /** `n` turns by one. */
  function Turned<R, K>(s: Schedule<R, K>, k: R, n: nat): R {
    if n == 0 then k else s.turn(Turned(s, k, n - 1), 1)
  }

  ghost predicate TwoIsOneTwice<R(!new), K>(s: Schedule<R, K>) {
    forall k :: s.turn(k, 2) == s.turn(s.turn(k, 1), 1)
  }

  /** The single turns done by the end of round `i`. */
  function TotalRotation(i: nat): nat {
    if i == 0 then 0 else TotalRotation(i - 1) + RotationOf(i)
  }

  lemma TurnIsTurned<R(!new), K>(s: Schedule<R, K>, k: R, m: nat, n: nat)
    requires TwoIsOneTwice(s) && (n == 1 || n == 2)
    ensures s.turn(Turned(s, k, m), n) == Turned(s, k, m + n)
  {
    assert Turned(s, k, m + 1) == s.turn(Turned(s, k, m), 1);
    if n == 2 {
      assert Turned(s, k, m + 2) == s.turn(Turned(s, k, m + 1), 1);
    }
  }

  lemma AfterStep<R, K>(s: Schedule<R, K>, k: R, i: nat)
    requires i > 0
    ensures After(s, k, i) == s.turn(After(s, k, i - 1), RotationOf(i))
    ensures TotalRotation(i) == TotalRotation(i - 1) + RotationOf(i)
  {
    hide RotationOf;
  }

  lemma {:induction false} AfterIsTurned<R(!new), K>(s: Schedule<R, K>, k: R, i: nat)
    requires TwoIsOneTwice(s)
    ensures After(s, k, i) == Turned(s, k, TotalRotation(i))
  {
    if i == 0 {
    } else {
      hide *;
      AfterStep(s, k, i);
      AfterIsTurned(s, k, i - 1);
      TurnIsTurned(s, k, TotalRotation(i - 1), RotationOf(i));
    }
  }

  lemma Rotations()
    ensures TotalRotation(8) == 14 && TotalRotation(16) == 28
  {
    assert TotalRotation(4) == 6;
    assert TotalRotation(12) == 21;
  }

  /** Sixteen rounds turn the register by 28 places in all. */
  lemma SixteenRoundsAre28<R(!new), K>(s: Schedule<R, K>, k: R)
    requires TwoIsOneTwice(s)
    ensures After(s, k, ROUNDS) == Turned(s, k, 28)
  {
    AfterIsTurned(s, k, ROUNDS);
    Rotations();
  }

  // ---------- Sub-keys in reverse order ----------

  /** The register of a deciphering circuit: same start, turning the other way before rounds 2 to 16. */
  function DecipherAfter<R>(turnBack: (R, nat) -> R, k: R, j: nat): R
    requires 1 <= j <= ROUNDS
  {
    if j == 1 then k else turnBack(DecipherAfter(turnBack, k, j - 1), RotationOf(ROUNDS + 2 - j))
  }

  ghost predicate TurnsBack<R(!new), K>(s: Schedule<R, K>, turnBack: (R, nat) -> R) {
    forall k, n {:trigger s.turn(k, n)} :: turnBack(s.turn(k, n), n) == k
  }

  lemma {:induction false} DecipherAfterIsAfter<R(!new), K>(s: Schedule<R, K>, turnBack: (R, nat) -> R, k: R, j: nat)
    requires TurnsBack(s, turnBack) && After(s, k, ROUNDS) == k
    requires 1 <= j <= ROUNDS
    ensures DecipherAfter(turnBack, k, j) == After(s, k, ROUNDS + 1 - j)
  {
    hide RotationOf, TurnsBack;
    if j == 1 {
    } else {
      DecipherAfterIsAfter(s, turnBack, k, j - 1);
      TurnedBack(s, turnBack, After(s, k, ROUNDS + 1 - j), RotationOf(ROUNDS + 2 - j));
    }
  }

  lemma TurnedBack<R(!new), K>(s: Schedule<R, K>, turnBack: (R, nat) -> R, k: R, n: nat)
    requires TurnsBack(s, turnBack)
    ensures turnBack(s.turn(k, n), n) == k
  {
  }

  /** So a deciphering circuit selects the sub-keys in reverse order. */
  lemma DecipherSelects<R(!new), K>(s: Schedule<R, K>, turnBack: (R, nat) -> R, k: R, j: nat)
    requires TurnsBack(s, turnBack) && After(s, k, ROUNDS) == k
    requires 1 <= j <= ROUNDS
    ensures s.select(DecipherAfter(turnBack, k, j)) == Reverse(SubKeys(s, k, ROUNDS))[j - 1]
  {
    hide After, DecipherAfter, SubKeys, Reverse, TurnsBack;
    DecipherAfterIsAfter(s, turnBack, k, j);
  }

  // ---------- Registers of period two ----------

  lemma {:induction false} TurnedByParity<R, K>(s: Schedule<R, K>, k: R, n: nat)
    requires s.turn(s.turn(k, 1), 1) == k
    ensures Turned(s, k, n) == if n % 2 == 0 then k else s.turn(k, 1)
  {
    if n == 0 {
    } else {
      TurnedByParity(s, k, n - 1);
    }
  }

  lemma RotationParity(i: nat)
    requires 1 <= i <= ROUNDS
    ensures TotalRotation(i) % 2 == 1 <==> i == 1 || 9 <= i <= 15
  {
    if i < 9 {
      RotationParityFrom(2, i);
    } else if i < 16 {
      Rotations();
      RotationParityFrom(9, i);
    } else {
      Rotations();
    }
  }

  lemma {:induction false} RotationParityFrom(a: nat, i: nat)
    requires (a == 2 && i <= 8) || (a == 9 && i <= 15)
    ensures a <= i ==> TotalRotation(i) % 2 == TotalRotation(a) % 2
  {
    if a < i {
      RotationParityFrom(a, i - 1);
    }
  }

  lemma DualRegisters<R(!new), K>(s: Schedule<R, K>, k1: R, k2: R, i: nat)
    requires TwoIsOneTwice(s)
    requires k2 == s.turn(k1, 1) && k1 == s.turn(k2, 1)
    requires 1 <= i <= ROUNDS
    ensures After(s, k2, i) == After(s, k1, ROUNDS + 1 - i)
  {
    hide After, Turned, TotalRotation, TwoIsOneTwice;
    var j := ROUNDS + 1 - i;
    AfterIsTurned(s, k1, j);
    AfterIsTurned(s, k2, i);
    RotationParity(i);
    RotationParity(j);
    TurnedByParity(s, k1, TotalRotation(j));
    TurnedByParity(s, k2, TotalRotation(i));
  }

  /** Two registers that are one place apart and have period two give each other's sub-keys in reverse. */
  lemma DualSubKeys<R(!new), K>(s: Schedule<R, K>, k1: R, k2: R)
    requires TwoIsOneTwice(s)
    requires k2 == s.turn(k1, 1) && k1 == s.turn(k2, 1)
    ensures SubKeys(s, k2, ROUNDS) == Reverse(SubKeys(s, k1, ROUNDS))
  {
    hide After, SubKeys, Reverse, TwoIsOneTwice;
    forall i | 1 <= i <= ROUNDS ensures After(s, k2, i) == After(s, k1, ROUNDS + 1 - i) {
      DualRegisters(s, k1, k2, i);
    }
  }

  // ---------- A symmetry of the schedule ----------

  ghost predicate KeptByTurn<R(!new), K>(s: Schedule<R, K>, rel: Relation<R>) {
    forall j, k, n {:trigger s.turn(j, n), s.turn(k, n)} :: rel(j, k) ==> rel(s.turn(j, n), s.turn(k, n))
  }

  ghost predicate KeptBySelect<R(!new), K>(s: Schedule<R, K>, rel: Relation<R>, keyRel: Relation<K>) {
    forall j, k {:trigger s.select(j), s.select(k)} :: rel(j, k) ==> keyRel(s.select(j), s.select(k))
  }

  lemma {:induction false} AfterRelated<R(!new), K>(s: Schedule<R, K>, rel: Relation<R>, j: R, k: R, i: nat)
    requires KeptByTurn(s, rel) && rel(j, k)
    ensures rel(After(s, j, i), After(s, k, i))
  {
    if i == 0 {
    } else {
      AfterRelated(s, rel, j, k, i - 1);
    }
  }

  lemma SelectRelated<R(!new), K>(s: Schedule<R, K>, rel: Relation<R>, keyRel: Relation<K>, j: R, k: R)
    requires KeptBySelect(s, rel, keyRel) && rel(j, k)
    ensures keyRel(s.select(j), s.select(k))
  {
  }

  lemma {:induction false} SubKeysRelated<R(!new), K>(s: Schedule<R, K>, rel: Relation<R>, keyRel: Relation<K>,
      j: R, k: R, n: nat)
    requires KeptByTurn(s, rel) && KeptBySelect(s, rel, keyRel) && rel(j, k)
    ensures RelatedKeys(keyRel, SubKeys(s, j, n), SubKeys(s, k, n))
  {
    if n == 0 {
    } else {
      hide KeptByTurn, KeptBySelect, After;
      SubKeysRelated(s, rel, keyRel, j, k, n - 1);
      AfterRelated(s, rel, j, k, n);
      SelectRelated(s, rel, keyRel, After(s, j, n), After(s, k, n));
    }
  }
}
