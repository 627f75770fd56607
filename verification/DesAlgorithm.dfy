/** `DES_ALGORITHM`: the pipeline as a clocked circuit that overwrites its registers in place. */
module DesAlgorithm {
  import opened KeySchedule
  import opened BlockCipher
  import opened Pipeline

  class Circuit<B, W, R, K> {
    const d: Design<B, W, R, K>
    const zero: Stage<W, R>
    const stages: array<Stage<W, R>>

    ghost predicate Valid() {
      stages.Length == STAGES
    }

    /** Before the first reset the registers hold anything. */
    constructor (d: Design<B, W, R, K>, zero: Stage<W, R>, powerUp: nat -> Stage<W, R>)
      ensures Valid() && fresh(stages)
      ensures this.d == d && this.zero == zero
    {
      this.d := d;
      this.zero := zero;
      stages := new Stage<W, R>[STAGES](powerUp);
    }

    method ResetN()
      requires Valid()
      modifies stages
      ensures stages[..] == Cleared(zero)
    {
      for i := 0 to stages.Length
        invariant forall j :: 0 <= j < i ==> stages[j] == zero
      {
        stages[i] := zero;
      }
    }

    /** The loop runs backwards so that every stage still sees the old value of the one before it. */
    method ClockEdge(start: bool, block: B, key: B)
      requires Valid()
      modifies stages
      ensures stages[..] == Latch(d, old(stages[..]), Entry(d, start, block, key))
    {
      for i := STAGES downto 1
        invariant forall j :: i <= j < STAGES ==> stages[j] == Advance(d, j, old(stages[j - 1]))
        invariant forall j :: 0 <= j < i ==> stages[j] == old(stages[j])
      {
        stages[i] := Advance(d, i, stages[i - 1]);
      }
      stages[0] := Entry(d, start, block, key);
    }

    method Outputs() returns (ciphertext: B, done: bool)
      requires Valid()
      ensures ciphertext == Ciphertext(d, stages[..])
      ensures done == Done(stages[..])
    {
      ciphertext := d.unload(stages[ROUNDS].halves);
      done := stages[ROUNDS].valid;
    }
  }
}
