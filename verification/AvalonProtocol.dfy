/**
  The software protocol of `source.c` over `DES_AVALON_WRAPPER`: load the registers, write the start bit,
  poll the done bit, read the two halves of the result.
 */
module AvalonProtocol {
  import opened KeySchedule
  import opened BlockCipher
  import opened Pipeline
  import opened AvalonBus

  /** The registers after a list of bus accesses, one per clock edge. */
  function Apply<W, R, K>(d: BusDesign<W, R, K>, s: Bus<W, R>, accesses: seq<Access>): (t: Bus<W, R>)
    requires |s.pipe| == STAGES
    ensures |t.pipe| == STAGES
  {
    if accesses == [] then s
    else Clock(d, Apply(d, s, accesses[..|accesses| - 1]), accesses[|accesses| - 1])
  }

  /** No start is pending and none is in flight. */
  ghost predicate Quiet<W, R>(s: Bus<W, R>) {
    && |s.pipe| == STAGES
    && !s.start
    && forall j :: 0 <= j < STAGES ==> !s.pipe[j].valid
  }

  predicate NoStarts(accesses: seq<Access>) {
    forall i :: 0 <= i < |accesses| ==> !IsStart(accesses[i])
  }

  // ---------- Loading ----------

  /** What a list of accesses leaves in the plaintext and key registers: the last write to each half. */
  function Loaded(plaintext: Wide, key: Wide, accesses: seq<Access>): (Wide, Wide) {
    if accesses == [] then (plaintext, key)
    else
      var (p, k) := Loaded(plaintext, key, accesses[..|accesses| - 1]);
      match accesses[|accesses| - 1]
      case Idle => (p, k)
      case Write(address, data) =>
        if address == 1 then (Wide(p.hi, data), k)
        else if address == 2 then (Wide(data, p.lo), k)
        else if address == 3 then (p, Wide(k.hi, data))
        else if address == 4 then (p, Wide(data, k.lo))
        else (p, k)
  }

  lemma QuietStep<W, R, K>(d: BusDesign<W, R, K>, s: Bus<W, R>, access: Access)
    requires Quiet(s) && !IsStart(access)
    ensures Quiet(Clock(d, s, access)) && Clock(d, s, access).done == s.done
  {
  }

  lemma {:induction false} LoadingStaysQuiet<W, R, K>(d: BusDesign<W, R, K>, s: Bus<W, R>, accesses: seq<Access>)
    requires Quiet(s) && NoStarts(accesses)
    ensures
      var t := Apply(d, s, accesses);
      Quiet(t) && t.done == s.done && (t.plaintext, t.key) == Loaded(s.plaintext, s.key, accesses)
  {
    if accesses == [] {
    } else {
      var n := |accesses| - 1;
      LoadingStaysQuiet(d, s, accesses[..n]);
      QuietStep(d, Apply(d, s, accesses[..n]), accesses[n]);
    }
  }

  // ---------- One start ----------

  const LATENCY := STAGES + 1

  /** A single start has been in flight for `n` edges since its write. */
  ghost predicate InFlight<W, R>(s: Bus<W, R>, n: nat) {
    && |s.pipe| == STAGES
    && (s.start <==> n == 0)
    && forall j :: 0 <= j < STAGES ==> (s.pipe[j].valid <==> j + 1 == n)
  }

  lemma StartPutsInFlight<W, R, K>(d: BusDesign<W, R, K>, s: Bus<W, R>, data: bv32)
    requires Quiet(s) && StartBit(data)
    ensures InFlight(Clock(d, s, Write(0, data)), 0) && !Clock(d, s, Write(0, data)).done
    ensures Clock(d, s, Write(0, data)).plaintext == s.plaintext && Clock(d, s, Write(0, data)).key == s.key
  {
  }

  lemma FlightStep<W, R, K>(d: BusDesign<W, R, K>, s: Bus<W, R>, n: nat, access: Access)
    requires InFlight(s, n) && !IsStart(access) && (n == 0 ==> access == Idle)
    ensures InFlight(Clock(d, s, access), n + 1)
    ensures Clock(d, s, access).done <==> s.done || (n == STAGES && access == Idle)
  {
  }

  /**
    After a start, as long as the next access is not a write and no other start follows: the done bit stays
    clear for 17 edges, and from edge 18 on it is set exactly if the bus was not writing at edge 18.
   */
  lemma {:induction false} DoneAtEdge18<W, R, K>(d: BusDesign<W, R, K>, s: Bus<W, R>, data: bv32, accesses: seq<Access>)
    requires Quiet(s) && StartBit(data)
    requires NoStarts(accesses) && (accesses != [] ==> accesses[0] == Idle)
    ensures
      var t := Apply(d, Clock(d, s, Write(0, data)), accesses);
      && InFlight(t, |accesses|)
      && (t.done <==> |accesses| >= LATENCY && accesses[LATENCY - 1] == Idle)
  {
    var started := Clock(d, s, Write(0, data));
    if accesses == [] {
      StartPutsInFlight(d, s, data);
    } else {
      hide InFlight, Quiet, Clock, IsStart;
      var n := |accesses| - 1;
      DoneAtEdge18(d, s, data, accesses[..n]);
      FlightStep(d, Apply(d, started, accesses[..n]), n, accesses[n]);
    }
  }

  function Idles(n: nat): seq<Access> {
    seq(n, _ => Idle)
  }

  /** `n` idle edges after the start write for a block and a key: every stage up to `n` works on them. */
  ghost predicate Waiting<W, R, K>(d: BusDesign<W, R, K>, s: Bus<W, R>, plaintext: Wide, key: Wide, n: nat) {
    && InFlight(s, n)
    && s.plaintext == plaintext && s.key == key
    && (s.done <==> n >= LATENCY)
    && forall j :: 0 <= j < n && j < STAGES ==> Holds(d, s.pipe[j], plaintext, key, j)
  }

  lemma WaitingStep<W, R, K>(d: BusDesign<W, R, K>, s: Bus<W, R>, plaintext: Wide, key: Wide, n: nat)
    requires Waiting(d, s, plaintext, key, n)
    ensures Waiting(d, Clock(d, s, Idle), plaintext, key, n + 1)
  {
    hide Holds, Advance, Entry;
    FlightStep(d, s, n, Idle);
    var t := Clock(d, s, Idle);
    forall j | 0 <= j < n + 1 && j < STAGES ensures Holds(d, t.pipe[j], plaintext, key, j) {
      if j > 0 {
        AdvanceHolds(d, s.pipe[j - 1], plaintext, key, j);
      } else {
        EntryHolds(d, s.start, plaintext, key);
      }
    }
  }

  /** From edge 18 on the circuit is quiet again and shows the cipher at addresses 5 and 6. */
  lemma WaitingEnds<W, R, K>(d: BusDesign<W, R, K>, s: Bus<W, R>, plaintext: Wide, key: Wide, n: nat)
    requires Waiting(d, s, plaintext, key, n) && n >= LATENCY
    ensures Quiet(s)
    ensures Wide(ReadData(d, s, 6), ReadData(d, s, 5)) == Encrypt(d, plaintext, key)
  {
    assert Holds(d, s.pipe[ROUNDS], plaintext, key, ROUNDS);
  }

  lemma {:induction false} IdlingIsWaiting<W, R, K>(d: BusDesign<W, R, K>, s: Bus<W, R>, data: bv32, n: nat)
    requires Quiet(s) && StartBit(data)
    ensures Waiting(d, Apply(d, Clock(d, s, Write(0, data)), Idles(n)), s.plaintext, s.key, n)
  {
    if n == 0 {
      StartPutsInFlight(d, s, data);
    } else {
      hide Waiting, Quiet, Clock;
      IdlingIsWaiting(d, s, data, n - 1);
      WaitingStep(d, Apply(d, Clock(d, s, Write(0, data)), Idles(n - 1)), s.plaintext, s.key, n - 1);
      assert Idles(n)[..n - 1] == Idles(n - 1);
    }
  }

  // ---------- Sessions ----------

  /** Load accesses, a start write, and then `wait` edges without a write before the result is read. */
  datatype Transaction = Transaction(loads: seq<Access>, data: bv32, wait: nat) {
    predicate WellFormed() {
      NoStarts(loads) && StartBit(data) && wait >= LATENCY
    }
  }

  function Perform<W, R, K>(d: BusDesign<W, R, K>, s: Bus<W, R>, t: Transaction): (r: Bus<W, R>)
    requires |s.pipe| == STAGES
    ensures |r.pipe| == STAGES
  {
    Apply(d, Clock(d, Apply(d, s, t.loads), Write(0, t.data)), Idles(t.wait))
  }

  /** The pairs of words the software reads at the end of each transaction. */
  function Results<W, R, K>(d: BusDesign<W, R, K>, s: Bus<W, R>, ts: seq<Transaction>): seq<Wide>
    requires |s.pipe| == STAGES
    decreases |ts|
  {
    if ts == [] then []
    else
      var r := Perform(d, s, ts[0]);
      [Wide(ReadData(d, r, 6), ReadData(d, r, 5))] + Results(d, r, ts[1..])
  }

  /** The ciphers of what was loaded, transaction by transaction. */
  function Ciphers<W, R, K>(d: BusDesign<W, R, K>, plaintext: Wide, key: Wide, ts: seq<Transaction>): seq<Wide>
    decreases |ts|
  {
    if ts == [] then []
    else
      var (p, k) := Loaded(plaintext, key, ts[0].loads);
      [Encrypt(d, p, k)] + Ciphers(d, p, k, ts[1..])
  }

  lemma TransactionIsRight<W, R, K>(d: BusDesign<W, R, K>, s: Bus<W, R>, t: Transaction)
    requires Quiet(s) && t.WellFormed()
    ensures
      var r := Perform(d, s, t);
      var (p, k) := Loaded(s.plaintext, s.key, t.loads);
      && Quiet(r) && r.done && r.plaintext == p && r.key == k
      && Wide(ReadData(d, r, 6), ReadData(d, r, 5)) == Encrypt(d, p, k)
  {
    LoadingStaysQuiet(d, s, t.loads);
    var loaded := Apply(d, s, t.loads);
    IdlingIsWaiting(d, loaded, t.data, t.wait);
    WaitingEnds(d, Perform(d, s, t), loaded.plaintext, loaded.key, t.wait);
  }

  /** Any number of transactions, from a quiet circuit: every result is the cipher of what was loaded. */
  lemma {:induction false} SessionIsRight<W, R, K>(d: BusDesign<W, R, K>, s: Bus<W, R>, ts: seq<Transaction>)
    requires Quiet(s) && forall i :: 0 <= i < |ts| ==> ts[i].WellFormed()
    ensures Results(d, s, ts) == Ciphers(d, s.plaintext, s.key, ts)
    decreases |ts|
  {
    if ts == [] {
    } else {
      TransactionIsRight(d, s, ts[0]);
      SessionIsRight(d, Perform(d, s, ts[0]), ts[1..]);
    }
  }
}
