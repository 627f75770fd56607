/** `DES_AVALON_WRAPPER` as a circuit with registers, and the driver of `source.c` in front of it. */
module AvalonWrapper {
  import opened BlockCipher
  import opened Pipeline
  import opened DesAlgorithm
  import opened AvalonBus
  import opened AvalonProtocol

  class Wrapper<W, R, K> {
    const des: Circuit<Wide, W, R, K>
    var plaintextReg: Wide
    var keyReg: Wide
    var startReg: bool
    var doneReg: bool

    ghost predicate Valid() {
      des.Valid()
    }

    ghost function State(): Bus<W, R>
      reads this, des.stages
      requires Valid()
    {
      Bus(plaintextReg, keyReg, startReg, doneReg, des.stages[..])
    }

    /** Power-on, with the reset line low. */
    constructor (d: BusDesign<W, R, K>, zero: Stage<W, R>)
      ensures Valid() && des.d == d && des.zero == zero && fresh(des.stages)
      ensures State() == ResetState(zero)
    {
      des := new Circuit(d, zero, _ => zero);
      new;
      ResetN();
    }

    method ResetN()
      requires Valid()
      modifies this, des.stages
      ensures State() == ResetState(des.zero)
    {
      plaintextReg, keyReg := Wide(0, 0), Wide(0, 0);
      startReg, doneReg := false, false;
      des.ResetN();
    }

    /** Both clocked processes see the register values from before the edge. */
    method ClockEdge(access: Access)
      requires Valid()
      modifies this, des.stages
      ensures State() == Clock(des.d, old(State()), access)
    {
      var _, doneWire := des.Outputs();
      des.ClockEdge(startReg, plaintextReg, keyReg);
      match access
      case Idle =>
        startReg := false;
        if doneWire {
          doneReg := true;
        }
      case Write(address, data) =>
        if address == 0 {
          startReg := StartBit(data);
          if StartBit(data) {
            doneReg := false;
          }
        } else if address == 1 {
          plaintextReg := plaintextReg.(lo := data);
        } else if address == 2 {
          plaintextReg := plaintextReg.(hi := data);
        } else if address == 3 {
          keyReg := keyReg.(lo := data);
        } else if address == 4 {
          keyReg := keyReg.(hi := data);
        }
    }

    method Read(address: bv3) returns (data: bv32)
      requires Valid()
      ensures data == ReadData(des.d, State(), address)
    {
      var ciphertext, _ := des.Outputs();
      if address == 0 {
        data := if doneReg then if startReg then 3 else 2 else if startReg then 1 else 0;
      } else if address == 5 {
        data := ciphertext.lo;
      } else if address == 6 {
        data := ciphertext.hi;
      } else {
        data := 0;
      }
    }

    /** One register write and the edges until the next access. */
    method Load(address: bv3, data: bv32, gap: nat)
      requires Valid() && Quiet(State()) && 1 <= address <= 4
      modifies this, des.stages
      ensures Quiet(State()) && doneReg == old(doneReg)
      ensures (plaintextReg, keyReg) == Loaded(old(plaintextReg), old(keyReg), [Write(address, data)])
    {
      QuietStep(des.d, State(), Write(address, data));
      ClockEdge(Write(address, data));
      assert Loaded(old(plaintextReg), old(keyReg), [Write(address, data)][..0]) == (old(plaintextReg), old(keyReg));
      for i := 0 to gap
        invariant Quiet(State()) && doneReg == old(doneReg)
        invariant (plaintextReg, keyReg) == Loaded(old(plaintextReg), old(keyReg), [Write(address, data)])
      {
        QuietStep(des.d, State(), Idle);
        ClockEdge(Idle);
      }
    }

    /** Clock edges without a write while a start is in flight or has landed; it was written `n` edges ago. */
    method Wait(edges: nat, ghost plaintext: Wide, ghost key: Wide, ghost n: nat)
      requires Valid() && Waiting(des.d, State(), plaintext, key, n)
      modifies this, des.stages
      ensures Waiting(des.d, State(), plaintext, key, n + edges)
    {
      for i := 0 to edges
        invariant Waiting(des.d, State(), plaintext, key, n + i)
      {
        WaitingStep(des.d, State(), plaintext, key, n + i);
        ClockEdge(Idle);
      }
    }

    /** The four register writes; `gaps(i)` edges follow the i-th. */
    method LoadAll(plaintext: Wide, key: Wide, gaps: nat -> nat)
      requires Valid() && Quiet(State())
      modifies this, des.stages
      ensures Quiet(State()) && plaintextReg == plaintext && keyReg == key
    {
      Load(1, plaintext.lo, gaps(0));
      Load(2, plaintext.hi, gaps(1));
      Load(3, key.lo, gaps(2));
      Load(4, key.hi, gaps(3));
    }

    /** The start write. */
    method Start()
      requires Valid() && Quiet(State())
      modifies this, des.stages
      ensures Waiting(des.d, State(), old(plaintextReg), old(keyReg), 0)
    {
      StartPutsInFlight(des.d, State(), 1);
      ClockEdge(Write(0, 1));
    }

    /** The polling loop: it ends, at the earliest at edge 18. A read takes one edge. */
    method Poll(gaps: nat -> nat, ghost plaintext: Wide, ghost key: Wide, ghost since: nat)
      returns (polls: nat, ghost n: nat)
      requires Valid() && Waiting(des.d, State(), plaintext, key, since)
      modifies this, des.stages
      ensures Waiting(des.d, State(), plaintext, key, n) && n >= LATENCY
    {
      polls, n := 0, since;
      var status := Read(0);
      while status & 2 == 0
        invariant Waiting(des.d, State(), plaintext, key, n)
        invariant status == ReadData(des.d, State(), 0)
        decreases LATENCY - n
      {
        Wait(1 + gaps(polls), plaintext, key, n);
        polls, n := polls + 1, n + 1 + gaps(polls);
        status := Read(0);
      }
    }

    /** The two result reads. */
    method ReadResult(gaps: nat -> nat, ghost plaintext: Wide, ghost key: Wide, ghost since: nat)
      returns (ciphertext: Wide)
      requires Valid() && Waiting(des.d, State(), plaintext, key, since) && since >= LATENCY
      modifies this, des.stages
      ensures ciphertext == Encrypt(des.d, plaintext, key)
      ensures Quiet(State()) && doneReg && plaintextReg == plaintext && keyReg == key
    {
      Wait(1 + gaps(0), plaintext, key, since);
      ghost var n := since + 1 + gaps(0);
      WaitingEnds(des.d, State(), plaintext, key, n);
      var lo := Read(5);
      Wait(1 + gaps(1), plaintext, key, n);
      WaitingEnds(des.d, State(), plaintext, key, n + 1 + gaps(1));
      var hi := Read(6);
      ciphertext := Wide(hi, lo);
    }

    /**
      The main program of `source.c`: the four register writes, the start write, the polling loop and the two
      result reads. After its i-th bus access it leaves the bus alone for `gaps(i)` clock edges.
     */
    method Encipher(plaintext: Wide, key: Wide, gaps: nat -> nat) returns (ciphertext: Wide)
      requires Valid() && Quiet(State())
      modifies this, des.stages
      ensures ciphertext == Encrypt(des.d, plaintext, key)
      ensures Quiet(State()) && doneReg && plaintextReg == plaintext && keyReg == key
    {
      LoadAll(plaintext, key, gaps);
      Start();
      Wait(gaps(4), plaintext, key, 0);
      ghost var n;
      var polls;
      polls, n := Poll(i => gaps(5 + i), plaintext, key, gaps(4));
      ciphertext := ReadResult(i => gaps(5 + polls + i), plaintext, key, n);
    }
  }
}
