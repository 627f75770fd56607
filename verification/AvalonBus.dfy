/**
  `DES_AVALON_WRAPPER` as a state machine: a register file, a start pulse and a sticky done bit in front of
  the pipeline. The bus is 32 bits wide, so a 64-bit register is kept as its two bus words.
 */
module AvalonBus {
  import opened BlockCipher
  import opened Pipeline

  datatype Wide = Wide(hi: bv32, lo: bv32)

  /** What the bus does at a clock edge. Reads have no effect on the registers. */
  datatype Access = Idle | Write(address: bv3, data: bv32)

  datatype BusEvent = BusReset | BusEdge(access: Access)

  datatype Bus<W, R> = Bus(plaintext: Wide, key: Wide, start: bool, done: bool, pipe: seq<Stage<W, R>>)

  type BusDesign<!W, !R, !K> = Design<Wide, W, R, K>

  predicate StartBit(data: bv32) {
    data & 1 != 0
  }

  predicate IsStart(access: Access) {
    access.Write? && access.address == 0 && StartBit(access.data)
  }

  function ResetState<W, R>(zero: Stage<W, R>): Bus<W, R> {
    Bus(Wide(0, 0), Wide(0, 0), false, false, Cleared(zero))
  }

  /** The registers after a clock edge with the given bus access. */
  function Clock<W, R, K>(d: BusDesign<W, R, K>, s: Bus<W, R>, access: Access): (t: Bus<W, R>)
    requires |s.pipe| == STAGES
    ensures |t.pipe| == STAGES
  {
    var t := s.(pipe := Latch(d, s.pipe, Entry(d, s.start, s.plaintext, s.key)));
    match access
    case Idle =>
      t.(start := false, done := s.done || Done(s.pipe))
    case Write(address, data) =>
      if address == 0 then t.(start := StartBit(data), done := s.done && !StartBit(data))
      else if address == 1 then t.(plaintext := s.plaintext.(lo := data))
      else if address == 2 then t.(plaintext := s.plaintext.(hi := data))
      else if address == 3 then t.(key := s.key.(lo := data))
      else if address == 4 then t.(key := s.key.(hi := data))
      else t
  }

  function Step<W, R, K>(d: BusDesign<W, R, K>, zero: Stage<W, R>, s: Bus<W, R>, e: BusEvent): (t: Bus<W, R>)
    requires |s.pipe| == STAGES
    ensures |t.pipe| == STAGES
  {
    match e
    case BusReset => ResetState(zero)
    case BusEdge(access) => Clock(d, s, access)
  }

  function RunBus<W, R, K>(d: BusDesign<W, R, K>, zero: Stage<W, R>, s: Bus<W, R>, history: seq<BusEvent>)
    : (t: Bus<W, R>)
    requires |s.pipe| == STAGES
    ensures |t.pipe| == STAGES
  {
    if history == [] then s
    else Step(d, zero, RunBus(d, zero, s, history[..|history| - 1]), history[|history| - 1])
  }

  /** The combinational read multiplexer. */
  function ReadData<W, R, K>(d: BusDesign<W, R, K>, s: Bus<W, R>, address: bv3): bv32
    requires |s.pipe| == STAGES
  {
    if address == 0 then (if s.done then if s.start then 3 else 2 else if s.start then 1 else 0)
    else if address == 5 then Ciphertext(d, s.pipe).lo
    else if address == 6 then Ciphertext(d, s.pipe).hi
    else 0
  }

  /** An access is a start exactly if it writes an odd word to address 0. */
  lemma StartIsBitZero(access: Access)
    ensures IsStart(access) <==> access.Write? && access.address == 0 && access.data % 2 == 1
  {
  }

  /** Address 0 reads the start register in bit 0 and the done bit in bit 1; all but 0, 5 and 6 read 0. */
  lemma StatusWord<W, R, K>(d: BusDesign<W, R, K>, s: Bus<W, R>, address: bv3)
    requires |s.pipe| == STAGES
    ensures ReadData(d, s, 0) & 1 == 1 <==> s.start
    ensures ReadData(d, s, 0) & 2 == 2 <==> s.done
    ensures ReadData(d, s, 0) < 4
    ensures 1 <= address <= 4 || address == 7 ==> ReadData(d, s, address) == 0
  {
  }

  // ---------- What the ciphertext addresses read ----------

  /** What the pipeline sees of an event, behind the register file. */
  function Seen<W, R>(s: Bus<W, R>, e: BusEvent): Event<Wide> {
    if e.BusReset? then Reset else Edge(s.start, s.plaintext, s.key)
  }

  function Behind<W, R, K>(d: BusDesign<W, R, K>, zero: Stage<W, R>, s: Bus<W, R>, history: seq<BusEvent>)
    : (r: seq<Event<Wide>>)
    requires |s.pipe| == STAGES
    ensures |r| == |history|
  {
    if history == [] then []
    else
      var before := history[..|history| - 1];
      Behind(d, zero, s, before) + [Seen(RunBus(d, zero, s, before), history[|history| - 1])]
  }

  lemma StepIsNext<W, R, K>(d: BusDesign<W, R, K>, zero: Stage<W, R>, s: Bus<W, R>, e: BusEvent)
    requires |s.pipe| == STAGES
    ensures Step(d, zero, s, e).pipe == Next(d, zero, s.pipe, Seen(s, e))
  {
    hide Latch, Entry, Cleared, StartBit;
  }

  lemma {:induction false} BehindIsRun<W, R, K>(d: BusDesign<W, R, K>, zero: Stage<W, R>, s: Bus<W, R>,
      history: seq<BusEvent>)
    requires |s.pipe| == STAGES
    ensures RunBus(d, zero, s, history).pipe == Run(d, zero, s.pipe, Behind(d, zero, s, history))
  {
    if history == [] {
    } else {
      var before := history[..|history| - 1];
      BehindIsRun(d, zero, s, before);
      StepIsNext(d, zero, RunBus(d, zero, s, before), history[|history| - 1]);
      var seen := Behind(d, zero, s, history);
      assert seen[..|seen| - 1] == Behind(d, zero, s, before);
    }
  }

  lemma {:induction false} BehindAt<W, R, K>(d: BusDesign<W, R, K>, zero: Stage<W, R>, s: Bus<W, R>,
      history: seq<BusEvent>, j: nat)
    requires |s.pipe| == STAGES && j < |history|
    ensures Behind(d, zero, s, history)[j] == Seen(RunBus(d, zero, s, history[..j]), history[j])
  {
    var before := history[..|history| - 1];
    if j == |history| - 1 {
    } else {
      BehindAt(d, zero, s, before, j);
      assert before[..j] == history[..j];
    }
  }

  lemma BehindEdges<W, R, K>(d: BusDesign<W, R, K>, zero: Stage<W, R>, s: Bus<W, R>, history: seq<BusEvent>, n: nat)
    requires |s.pipe| == STAGES && n <= |history|
    ensures Clocked(Behind(d, zero, s, history), n)
       <==> forall j :: |history| - n <= j < |history| ==> history[j].BusEdge?
  {
    forall j | 0 <= j < |history| ensures Behind(d, zero, s, history)[j].Edge? <==> history[j].BusEdge? {
      BehindAt(d, zero, s, history, j);
    }
  }

  /**
    After any history whose last 17 events are clock edges, addresses 5 and 6 read the two halves of the
    cipher of the registers as they were before those edges, whatever was written or started meanwhile.
   */
  lemma ReadBack<W, R, K>(d: BusDesign<W, R, K>, zero: Stage<W, R>, s: Bus<W, R>, history: seq<BusEvent>)
    requires |s.pipe| == STAGES && |history| >= STAGES
    requires forall j :: |history| - STAGES <= j < |history| ==> history[j].BusEdge?
    ensures
      var earlier := RunBus(d, zero, s, history[..|history| - STAGES]);
      var now := RunBus(d, zero, s, history);
      Wide(ReadData(d, now, 6), ReadData(d, now, 5)) == Encrypt(d, earlier.plaintext, earlier.key)
  {
    BehindIsRun(d, zero, s, history);
    BehindEdges(d, zero, s, history, STAGES);
    BehindAt(d, zero, s, history, |history| - STAGES);
    PipelineRefinesCipher(d, zero, s.pipe, Behind(d, zero, s, history));
  }

  // ---------- The done bit ----------

  /** The start register after a history: the last access to address 0 set it, and only writes elsewhere followed. */
  predicate StartPending(history: seq<BusEvent>) {
    if history == [] then false
    else
      match history[|history| - 1]
      case BusReset => false
      case BusEdge(Idle) => false
      case BusEdge(Write(address, data)) =>
        if address == 0 then StartBit(data) else StartPending(history[..|history| - 1])
  }

  lemma {:induction false} StartIsPending<W, R, K>(d: BusDesign<W, R, K>, zero: Stage<W, R>, history: seq<BusEvent>)
    ensures RunBus(d, zero, ResetState(zero), history).start <==> StartPending(history)
  {
    if history == [] {
    } else {
      StartIsPending(d, zero, history[..|history| - 1]);
    }
  }

  /** The last 17 events are clock edges, and at the first of them a start was pending. */
  predicate DonePulse(history: seq<BusEvent>) {
    && |history| >= STAGES
    && (forall j :: |history| - STAGES <= j < |history| ==> history[j].BusEdge?)
    && StartPending(history[..|history| - STAGES])
  }

  /** `done_wire` shows exactly the starts that were pending 17 edges ago, and no reset came since. */
  lemma DonePulseExactly<W, R, K>(d: BusDesign<W, R, K>, zero: Stage<W, R>, history: seq<BusEvent>)
    requires !zero.valid
    ensures Done(RunBus(d, zero, ResetState(zero), history).pipe) <==> DonePulse(history)
  {
    var s := ResetState(zero);
    BehindIsRun(d, zero, s, history);
    DoneExactly(d, zero, Behind(d, zero, s, history));
    if |history| >= STAGES {
      var first := |history| - STAGES;
      BehindEdges(d, zero, s, history, STAGES);
      BehindAt(d, zero, s, history, first);
      StartIsPending(d, zero, history[..first]);
    }
  }

  /** An event that leaves the done bit alone: neither a reset nor a start write. */
  predicate LeavesDone(e: BusEvent) {
    e.BusEdge? && !IsStart(e.access)
  }

  /** Event `m` catches a done pulse that no later start write or reset clears. */
  predicate CaughtAt(history: seq<BusEvent>, m: nat) {
    && m < |history| && history[m] == BusEdge(Idle) && DonePulse(history[..m])
    && forall j :: m < j < |history| ==> LeavesDone(history[j])
  }

  ghost predicate Caught(history: seq<BusEvent>) {
    exists m: nat :: CaughtAt(history, m)
  }

  lemma DoneStep<W, R, K>(d: BusDesign<W, R, K>, zero: Stage<W, R>, s: Bus<W, R>, e: BusEvent)
    requires |s.pipe| == STAGES
    ensures Step(d, zero, s, e).done <==> (e == BusEdge(Idle) && Done(s.pipe)) || (s.done && LeavesDone(e))
  {
  }

  lemma CaughtEarlier(history: seq<BusEvent>, m: nat)
    requires |history| > 0 && m < |history| - 1
    ensures CaughtAt(history, m)
       <==> CaughtAt(history[..|history| - 1], m) && LeavesDone(history[|history| - 1])
  {
    assert history[..|history| - 1][..m] == history[..m];
  }

  lemma CaughtStep(before: seq<BusEvent>, e: BusEvent)
    ensures Caught(before + [e])
       <==> (e == BusEdge(Idle) && DonePulse(before)) || (Caught(before) && LeavesDone(e))
  {
    var history, n := before + [e], |before|;
    assert history[..n] == before;
    assert CaughtAt(history, n) <==> e == BusEdge(Idle) && DonePulse(before);
    if m: nat :| CaughtAt(before, m) {
      CaughtEarlier(history, m);
    }
    if m: nat :| m < n && CaughtAt(history, m) {
      CaughtEarlier(history, m);
    }
  }

  /**
    Over every history, the done bit is set exactly when 17 edges after a pending start came an edge without a write,
    and no reset in between, and neither a reset nor a start write since.
   */
  lemma {:induction false} DoneBitExactly<W, R, K>(d: BusDesign<W, R, K>, zero: Stage<W, R>, history: seq<BusEvent>)
    requires !zero.valid
    ensures RunBus(d, zero, ResetState(zero), history).done <==> Caught(history)
  {
    if history == [] {
    } else {
      var n := |history| - 1;
      var before, e := history[..n], history[n];
      DoneBitExactly(d, zero, before);
      DonePulseExactly(d, zero, before);
      DoneStep(d, zero, RunBus(d, zero, ResetState(zero), before), e);
      CaughtStep(before, e);
      assert history == before + [e];
    }
  }
}
