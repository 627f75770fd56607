/** `DES_CONTROL`: the controller of the round-per-cycle design, with a state and a 4-bit round counter. */
module DesControl {
  import opened KeySchedule
  import opened BlockCipher
  import opened Pipeline

  datatype Phase = IDLE | PROCESS | DONE

  datatype Control = Control(phase: Phase, counter: nat)

  const AFTER_RESET := Control(IDLE, 0)

  // The combinational outputs and the next-state logic.

  function NextPhase(c: Control, start: bool): Phase {
    match c.phase
    case IDLE => if start then PROCESS else IDLE
    case PROCESS => if c.counter == 15 then DONE else PROCESS
    case DONE => IDLE
  }

  function NextCounter(c: Control): nat {
    match c.phase
    case IDLE => 0
    case PROCESS => (c.counter + 1) % 16
    case DONE => c.counter
  }

  predicate DoneOut(c: Control) {
    c.phase == DONE
  }

  /** True selects the feedback loop, false a new key. */
  predicate MuxSel(c: Control) {
    c.phase == PROCESS
  }

  /** True shifts by two, false by one. */
  predicate ShiftSel(c: Control) {
    c.phase == PROCESS ==> c.counter != 0 && c.counter != 1 && c.counter != 8 && c.counter != 15
  }

  function StepControl(c: Control, start: bool): Control {
    Control(NextPhase(c, start), NextCounter(c))
  }

  /** The controller after the edges that sampled the given starts. */
  function RunControl(starts: seq<bool>): Control {
    if starts == [] then AFTER_RESET
    else StepControl(RunControl(starts[..|starts| - 1]), starts[|starts| - 1])
  }

  class Controller {
    var phase: Phase
    var counter: nat

    function State(): Control
      reads this
    {
      Control(phase, counter)
    }

    constructor ()
      ensures State() == AFTER_RESET
    {
      phase, counter := IDLE, 0;
    }

    method ResetN()
      modifies this
      ensures State() == AFTER_RESET
    {
      phase, counter := IDLE, 0;
    }

    /** Two clocked blocks: each sees the other's register as it was before the edge. */
    method ClockEdge(start: bool)
      modifies this
      ensures State() == StepControl(old(State()), start)
    {
      var next := NextPhase(State(), start);
      if phase == IDLE {
        counter := 0;
      } else if phase == PROCESS {
        counter := (counter + 1) % 16;
      }
      phase := next;
    }
  }

  // ---------- Which starts are taken ----------

  /** A start is taken when none of the 17 edges before it took one. */
  predicate Taken(starts: seq<bool>, t: int)
    decreases t
  {
    0 <= t < |starts| && starts[t] && forall u :: 0 <= u && t - 17 <= u < t ==> !Taken(starts, u)
  }

  lemma {:induction false} TakenInPrefix(starts: seq<bool>, n: nat, t: int)
    requires t < n <= |starts|
    ensures Taken(starts[..n], t) <==> Taken(starts, t)
    decreases t
  {
    forall u | 0 <= u && t - 17 <= u < t ensures Taken(starts[..n], u) <==> Taken(starts, u) {
      TakenInPrefix(starts, n, u);
    }
  }

  /** What the controller shows after the edges that sampled `starts`. */
  ghost predicate Shows(c: Control, starts: seq<bool>) {
    var n := |starts|;
    && (forall u :: n - 16 <= u < n ==> (Taken(starts, u) <==> c == Control(PROCESS, n - 1 - u)))
    && (Taken(starts, n - 17) <==> DoneOut(c))
    && (c.phase == PROCESS ==> c.counter < 16)
  }

  lemma IdleMeansNoneTaken(c: Control, starts: seq<bool>)
    requires Shows(c, starts)
    ensures c.phase == IDLE <==> forall u :: |starts| - 17 <= u < |starts| ==> !Taken(starts, u)
  {
    if c.phase == PROCESS {
      assert Taken(starts, |starts| - 1 - c.counter);
    } else if c.phase == DONE {
      assert Taken(starts, |starts| - 17);
    }
  }

  lemma ShowsStep(c: Control, before: seq<bool>, starts: seq<bool>)
    requires |starts| > 0 && before == starts[..|starts| - 1] && Shows(c, before)
    ensures Shows(StepControl(c, starts[|starts| - 1]), starts)
  {
    var n := |starts|;
    forall u | u < n - 1 ensures Taken(before, u) <==> Taken(starts, u) {
      TakenInPrefix(starts, n - 1, u);
    }
    IdleMeansNoneTaken(c, before);
    var c' := StepControl(c, starts[n - 1]);
    assert Taken(starts, n - 1) <==> starts[n - 1] && c.phase == IDLE;
    forall u | n - 16 <= u < n ensures Taken(starts, u) <==> c' == Control(PROCESS, n - 1 - u) {
      if u < n - 1 {
        assert Taken(before, u) <==> c == Control(PROCESS, n - 2 - u);
      }
    }
    assert Taken(starts, n - 17) <==> c == Control(PROCESS, 15) by {
      assert Taken(before, n - 17) <==> c == Control(PROCESS, 15);
    }
  }

  /**
    The controller over every stream of starts: sixteen process cycles with counter 0 to 15 after each taken
    start, then one done cycle, and idle otherwise. Starts that arrive meanwhile change nothing.
   */
  lemma {:induction false} ControlTrace(starts: seq<bool>)
    ensures Shows(RunControl(starts), starts)
  {
    if starts == [] {
    } else {
      var before := starts[..|starts| - 1];
      ControlTrace(before);
      ShowsStep(RunControl(before), before, starts);
    }
  }

  /**
    The select outputs over every stream of starts: a key is fed back exactly during the sixteen process cycles of a
    taken start, and a shift by one is commanded exactly in the first, the second, the ninth and the last of them.
   */
  lemma SelectTrace(starts: seq<bool>)
    ensures
      var c, n := RunControl(starts), |starts|;
      && (MuxSel(c) <==> exists u :: n - 16 <= u < n && Taken(starts, u))
      && (!ShiftSel(c) <==>
            Taken(starts, n - 1) || Taken(starts, n - 2) || Taken(starts, n - 9) || Taken(starts, n - 16))
  {
    hide Taken, RunControl;
    ControlTrace(starts);
    var c := RunControl(starts);
    if c.phase == PROCESS {
      assert Taken(starts, |starts| - 1 - c.counter);
    }
  }

  // ---------- The rotation it commands ----------

  /** A key register behind the controller: a new key while `Mux_sel` is low, else a turn by `Shift_sel`. */
  function StepRegister<R, K>(s: Schedule<R, K>, c: Control, r: R, key: R): R {
    if MuxSel(c) then s.turn(r, if ShiftSel(c) then 2 else 1) else key
  }

  function RunRegister<R, K>(s: Schedule<R, K>, r: R, starts: seq<bool>, keys: seq<R>): R
    requires |keys| == |starts|
  {
    if starts == [] then r
    else
      var n := |starts| - 1;
      StepRegister(s, RunControl(starts[..n]), RunRegister(s, r, starts[..n], keys[..n]), keys[n])
  }

  lemma ShiftSelIsRotation(c: Control)
    requires c.phase == PROCESS && c.counter < 16
    ensures (if ShiftSel(c) then 2 else 1) == RotationOf(c.counter + 1)
  {
  }

  /** A start is only taken in the idle state, where a new key is selected. */
  lemma NotInProcess(starts: seq<bool>)
    requires starts != [] && Taken(starts, |starts| - 1)
    ensures !MuxSel(RunControl(starts[..|starts| - 1]))
  {
    TakenShows(starts, 0);
  }

  lemma TakenShows(starts: seq<bool>, i: nat)
    requires i < ROUNDS && i < |starts| && Taken(starts, |starts| - 1 - i)
    ensures RunControl(starts) == Control(PROCESS, i)
  {
    hide Taken, RunControl;
    ControlTrace(starts);
  }

  /** `i` edges after a start was taken the register holds what pipeline stage `i` holds: `i` turns of the key. */
  lemma {:induction false} RegisterFollowsSchedule<R, K>(s: Schedule<R, K>, r: R, starts: seq<bool>, keys: seq<R>,
      i: nat)
    requires |keys| == |starts| && i <= ROUNDS && i < |starts| && Taken(starts, |starts| - 1 - i)
    ensures RunRegister(s, r, starts, keys) == After(s, keys[|starts| - 1 - i], i)
  {
    var n := |starts| - 1;
    var before := starts[..n];
    if i == 0 {
      NotInProcess(starts);
    } else {
      hide Taken, RunControl;
      TakenInPrefix(starts, n, n - i);
      TakenShows(before, i - 1);
      RegisterFollowsSchedule(s, r, before, keys[..n], i - 1);
      ShiftSelIsRotation(RunControl(before));
    }
  }

  /** The round-per-cycle design and the pipeline, fed the same stream, hold the same key registers. */
  lemma RegisterMatchesPipeline<B, W, R, K>(d: Design<B, W, R, K>, zero: Stage<W, R>, pipe: seq<Stage<W, R>>,
      r: R, history: seq<Event<B>>, i: nat)
    requires |pipe| == STAGES && i <= ROUNDS && Clocked(history, |history|)
    requires Taken(Starts(history), |history| - 1 - i)
    ensures RunRegister(d.schedule, r, Starts(history), Keys(d, history)) == Run(d, zero, pipe, history)[i].register
  {
    hide Run, RunRegister, After;
    var n := |history|;
    var starts, keys := Starts(history), Keys(d, history);
    RegisterFollowsSchedule(d.schedule, r, starts, keys, i);
    assert keys[n - 1 - i] == d.loadKey(history[n - 1 - i].key);
    StageHolds(d, zero, pipe, history, i);
  }

  function Starts<B>(history: seq<Event<B>>): seq<bool>
    requires Clocked(history, |history|)
  {
    seq(|history|, j requires 0 <= j < |history| => history[j].start)
  }

  function Keys<B, W, R, K>(d: Design<B, W, R, K>, history: seq<Event<B>>): seq<R>
    requires Clocked(history, |history|)
  {
    seq(|history|, j requires 0 <= j < |history| => d.loadKey(history[j].key))
  }
}
