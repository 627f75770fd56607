/**
  The round pipeline as a state machine: one stage register per round, all loaded at every clock edge, so
  that a new block with its own key can enter at every edge. The design of the rounds is left open.
 */
module Pipeline {
  import opened Feistel
  import opened KeySchedule
  import opened BlockCipher

  /** One rank of pipeline registers. */
  datatype Stage<W, R> = Stage(halves: Halves<W>, register: R, valid: bool)

  /** What happens to the circuit: the reset line is pulled low, or a clock edge arrives while it is high. */
  datatype Event<B> = Reset | Edge(start: bool, block: B, key: B)

  const STAGES := ROUNDS + 1

  /** What stage 0 latches at a clock edge. */
  function Entry<B, W, R, K>(d: Design<B, W, R, K>, start: bool, block: B, key: B): Stage<W, R> {
    Stage(d.load(block), d.loadKey(key), start)
  }

  /** What stage `i` latches from the stage before it. */
  function Advance<B, W, R, K>(d: Design<B, W, R, K>, i: nat, s: Stage<W, R>): Stage<W, R> {
    var register := d.schedule.turn(s.register, RotationOf(i));
    Stage(Round(d.net, s.halves, d.schedule.select(register)), register, s.valid)
  }

  /** All stages latch at once, each from the old value of the one before. */
  function Latch<B, W, R, K>(d: Design<B, W, R, K>, pipe: seq<Stage<W, R>>, entry: Stage<W, R>): seq<Stage<W, R>> {
    seq(|pipe|, i requires 0 <= i < |pipe| => if i == 0 then entry else Advance(d, i, pipe[i - 1]))
  }

  function Cleared<W, R>(zero: Stage<W, R>): seq<Stage<W, R>> {
    seq(STAGES, _ => zero)
  }

  function Next<B, W, R, K>(d: Design<B, W, R, K>, zero: Stage<W, R>, pipe: seq<Stage<W, R>>, e: Event<B>)
    : seq<Stage<W, R>>
  {
    match e
    case Reset => Cleared(zero)
    case Edge(start, block, key) => Latch(d, pipe, Entry(d, start, block, key))
  }

  /** The pipeline after a history of events. */
  function Run<B, W, R, K>(d: Design<B, W, R, K>, zero: Stage<W, R>, pipe: seq<Stage<W, R>>, history: seq<Event<B>>)
    : (r: seq<Stage<W, R>>)
    requires |pipe| == STAGES
    ensures |r| == STAGES
  {
    if history == [] then pipe
    else Next(d, zero, Run(d, zero, pipe, history[..|history| - 1]), history[|history| - 1])
  }

  function Ciphertext<B, W, R, K>(d: Design<B, W, R, K>, pipe: seq<Stage<W, R>>): B
    requires |pipe| == STAGES
  {
    d.unload(pipe[ROUNDS].halves)
  }

  function Done<W, R>(pipe: seq<Stage<W, R>>): bool
    requires |pipe| == STAGES
  {
    pipe[ROUNDS].valid
  }

  /** No reset among the last `n` events, of which there are at least that many. */
  predicate Clocked<B>(history: seq<Event<B>>, n: nat) {
    n <= |history| && forall j :: |history| - n <= j < |history| ==> history[j].Edge?
  }

  /** The first `i` rounds of a block under its key. */
  ghost predicate Holds<B, W, R, K>(d: Design<B, W, R, K>, s: Stage<W, R>, block: B, key: B, i: nat) {
    && s.halves == Rounds(d.net, d.load(block), SubKeys(d.schedule, d.loadKey(key), i))
    && s.register == After(d.schedule, d.loadKey(key), i)
  }

  lemma AdvanceHolds<B, W, R, K>(d: Design<B, W, R, K>, s: Stage<W, R>, block: B, key: B, i: nat)
    requires i > 0 && Holds(d, s, block, key, i - 1)
    ensures Holds(d, Advance(d, i, s), block, key, i)
  {
    OneMoreRound(d, d.load(block), d.loadKey(key), i);
  }

  lemma EntryHolds<B, W, R, K>(d: Design<B, W, R, K>, start: bool, block: B, key: B)
    ensures Holds(d, Entry(d, start, block, key), block, key, 0)
  {
  }

  lemma EntryValid<B, W, R, K>(d: Design<B, W, R, K>, start: bool, block: B, key: B)
    ensures Entry(d, start, block, key).valid == start
  {
  }

  /** What the last clock edge of a history does to stage `i`. */
  lemma LastEdge<B, W, R, K>(d: Design<B, W, R, K>, zero: Stage<W, R>, pipe: seq<Stage<W, R>>,
      history: seq<Event<B>>, i: nat)
    requires |pipe| == STAGES && i < STAGES && history != [] && history[|history| - 1].Edge?
    ensures
      var e := history[|history| - 1];
      Run(d, zero, pipe, history)[i]
      == if i == 0 then Entry(d, e.start, e.block, e.key)
         else Advance(d, i, Run(d, zero, pipe, history[..|history| - 1])[i - 1])
  {
  }

  /** After `i` more edges, stage `i` holds the first `i` rounds of the block that entered then. */
  lemma {:induction false} StageHolds<B, W, R, K>(d: Design<B, W, R, K>, zero: Stage<W, R>, pipe: seq<Stage<W, R>>,
      history: seq<Event<B>>, i: nat)
    requires |pipe| == STAGES && i < STAGES && Clocked(history, i + 1)
    ensures
      var e := history[|history| - 1 - i];
      var s := Run(d, zero, pipe, history)[i];
      Holds(d, s, e.block, e.key, i) && s.valid == e.start
  {
    hide Holds, Run, Entry;
    var e := history[|history| - 1 - i];
    var before := history[..|history| - 1];
    LastEdge(d, zero, pipe, history, i);
    if i == 0 {
      EntryHolds(d, e.start, e.block, e.key);
      EntryValid(d, e.start, e.block, e.key);
    } else {
      StageHolds(d, zero, pipe, before, i - 1);
      AdvanceHolds(d, Run(d, zero, pipe, before)[i - 1], e.block, e.key, i);
    }
  }

  /**
    Sixteen edges after a block and its key were sampled, the output is their cipher, whatever other blocks
    and keys entered before, between and after, and whatever the registers held at the beginning.
   */
  lemma PipelineRefinesCipher<B, W, R, K>(d: Design<B, W, R, K>, zero: Stage<W, R>, pipe: seq<Stage<W, R>>,
      history: seq<Event<B>>)
    requires |pipe| == STAGES && Clocked(history, STAGES)
    ensures
      var e := history[|history| - STAGES];
      && Ciphertext(d, Run(d, zero, pipe, history)) == Encrypt(d, e.block, e.key)
      && Done(Run(d, zero, pipe, history)) == e.start
  {
    StageHolds(d, zero, pipe, history, ROUNDS);
  }

  /** From a cleared pipeline, a stage is valid exactly when a start entered it and no reset came since. */
  lemma {:induction false} ValidExactly<B, W, R, K>(d: Design<B, W, R, K>, zero: Stage<W, R>,
      history: seq<Event<B>>, i: nat)
    requires !zero.valid && i < STAGES
    ensures Run(d, zero, Cleared(zero), history)[i].valid
       <==> Clocked(history, i + 1) && history[|history| - 1 - i].start
  {
    if Clocked(history, i + 1) {
      StageHolds(d, zero, Cleared(zero), history, i);
    } else if history != [] && history[|history| - 1].Edge? && i > 0 {
      var before := history[..|history| - 1];
      assert forall j :: 0 <= j < |before| ==> history[j] == before[j];
      ValidExactly(d, zero, before, i - 1);
    }
  }

  /** `Done` shows exactly the starts of sixteen edges ago that no reset has discarded. */
  lemma DoneExactly<B, W, R, K>(d: Design<B, W, R, K>, zero: Stage<W, R>, history: seq<Event<B>>)
    requires !zero.valid
    ensures Done(Run(d, zero, Cleared(zero), history))
       <==> Clocked(history, STAGES) && history[|history| - STAGES].start
  {
    ValidExactly(d, zero, history, ROUNDS);
  }
}
