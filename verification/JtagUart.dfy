/**
  The fast JTAG UART driver: `altera_avalon_jtag_uart_read` and `_write` share two rings and an interrupt
  mask with the interrupt routine, without locks around their copies. Between any two of their accesses to
  the shared state the interrupt routine may run any number of times (`Preempt`).
 */
module JtagUart {
  import opened Ring

  type Byte = b: int | 0 <= b < 256

  /** What a call returns; `Waiting` is a call that still spins, with `n` bytes done. */
  datatype Return = Count(n: nat) | WouldBlock | IoError | Waiting(n: nat)

  /** The host is never counted as inactive for longer than this. */
  const LONGEST: nat := 0x7FFF_FFFF - 2

  /**
    The device: a receive FIFO that the host fills and a transmit FIFO that it drains. `incoming` is what the
    host has yet to send; it may move any part of it into the receive FIFO at any moment.
   */
  class Device {
    var incoming: seq<Byte>
    var rxFifo: seq<Byte>
    var txFree: nat
    var re: bool
    var we: bool
    /** The activity bit: the host has made contact since the bit was cleared. */
    var contact: bool
    /** Whether an enabled interrupt is raised as soon as its FIFO has something to offer, or may be late. */
    const eager: bool
    /** Bytes the processor has taken out of the receive FIFO, and bytes it has put into the transmit FIFO. */
    ghost var taken: seq<Byte>
    ghost var sent: seq<Byte>
    /** How often the host has made contact. */
    ghost var contacts: nat

    constructor (incoming: seq<Byte>, eager: bool)
      ensures this.incoming == incoming && rxFifo == [] && taken == [] && sent == [] && !re && !we
      ensures this.eager == eager
    {
      this.incoming, this.eager := incoming, eager;
      rxFifo, txFree, re, we, contact := [], *, false, false, false;
      taken, sent, contacts := [], [], 0;
    }

    /** Bytes that have not reached the processor yet. */
    function Pending(): seq<Byte>
      reads this`rxFifo, this`incoming
    {
      rxFifo + incoming
    }

    /** Everything the host ever sends, in order. */
    ghost function HostStream(): seq<Byte>
      reads this`taken, this`rxFifo, this`incoming
    {
      taken + Pending()
    }

    /** No byte and no room that was there is gone without having been used. */
    twostate predicate Onward()
      reads this
    {
      && |taken| + |rxFifo| >= old(|taken| + |rxFifo|)
      && |sent| + txFree >= old(|sent| + txFree)
    }

    method HostActs()
      modifies this`incoming, this`rxFifo, this`txFree, this`contact, this`contacts
      ensures contacts >= old(contacts) && (contact <==> old(contact) || contacts > old(contacts))
      ensures Pending() == old(Pending())
      ensures |rxFifo| >= old(|rxFifo|) && txFree >= old(txFree)
    {
      var n: nat :| n <= |incoming|;
      rxFifo, incoming := rxFifo + incoming[..n], incoming[n..];
      if * {
        contact, contacts := true, contacts + 1;
      }
      var freed: nat :| freed >= 0;
      txFree := txFree + freed;
    }

    /** An interrupt bit is only up if it is enabled and its FIFO has something to offer. */
    method ReadControl() returns (ri: bool, wi: bool, wspace: nat, ac: bool)
      modifies this`incoming, this`rxFifo, this`txFree, this`contact, this`contacts
      ensures ac == contact && (contact <==> old(contact) || contacts > old(contacts))
      ensures Pending() == old(Pending()) && Onward()
      ensures ri ==> re && rxFifo != []
      ensures wi ==> we && wspace > 0
      ensures eager ==> (re && rxFifo != [] ==> ri) && (we && txFree > 0 ==> wi)
      ensures wspace == txFree
    {
      HostActs();
      ri, wi, wspace, ac := *, *, txFree, contact;
      ri := (ri || eager) && re && rxFifo != [];
      wi := (wi || eager) && we && txFree > 0;
    }

    /** Takes a byte if there is one; `ravail` counts what is left. */
    method ReadData() returns (rvalid: bool, data: Byte, ravail: nat)
      modifies this`incoming, this`rxFifo, this`txFree, this`contact, this`contacts, this`taken
      ensures old(rxFifo) != [] ==> rvalid
      ensures rvalid ==> taken == old(taken) + [data] && old(Pending()) == [data] + Pending()
      ensures !rvalid ==> taken == old(taken) && Pending() == old(Pending()) && ravail == 0
      ensures HostStream() == old(HostStream()) && txFree >= old(txFree) && Onward()
    {
      HostActs();
      assert rxFifo != [] ==> Pending() == [rxFifo[0]] + (rxFifo[1..] + incoming);
      if rxFifo == [] {
        rvalid, data, ravail := false, *, 0;
      } else {
        rvalid, data := true, rxFifo[0];
        taken := taken + [data];
        rxFifo := rxFifo[1..];
        ravail := |rxFifo|;
        assert old(taken) + ([data] + Pending()) == taken + Pending();
      }
    }

    /** A byte written while the transmit FIFO is full is lost. */
    method WriteData(data: Byte)
      modifies this`incoming, this`rxFifo, this`txFree, this`contact, this`contacts, this`sent
      ensures Pending() == old(Pending()) && Onward()
      ensures old(txFree) > 0 ==> sent == old(sent) + [data] && txFree >= old(txFree) - 1
    {
      HostActs();
      if txFree > 0 {
        sent := sent + [data];
        txFree := txFree - 1;
      }
    }

    method WriteControl(re: bool, we: bool)
      modifies this`re, this`we
      ensures this.re == re && this.we == we
    {
      this.re, this.we := re, we;
    }

    /** A write with the activity bit set clears that bit. */
    method WriteControlAndClear(re: bool, we: bool)
      modifies this`re, this`we, this`contact
      ensures this.re == re && this.we == we && !contact
    {
      this.re, this.we, contact := re, we, false;
    }
  }

  class Driver {
    const dev: Device
    const len: nat
    const rxBuf: array<Byte>
    const txBuf: array<Byte>
    var rxIn: nat
    var rxOut: nat
    var txIn: nat
    var txOut: nat
    /** The two bits of `irq_enable`. */
    var irqRe: bool
    var irqWe: bool
    /** Seconds since the host was last active, and how many make it inactive. */
    var hostInactive: nat
    const timeout: nat

    /** Bytes that write calls have accepted and that read calls have delivered, over all calls. */
    ghost var accepted: seq<Byte>
    ghost var delivered: seq<Byte>
    /** The writer has published bytes, or the reader has made room, and has yet to enable the interrupt. */
    ghost var txOwed: bool
    ghost var rxOwed: bool
    /** How often the timer has found the host inactive. */
    ghost var silence: nat

    /** The state is well-formed. */
    ghost predicate Shaped()
      reads this`rxIn, this`rxOut, this`txIn, this`txOut
    {
      && len >= 2
      && rxBuf.Length == len && txBuf.Length == len && rxBuf != txBuf
      && rxIn < len && rxOut < len && txIn < len && txOut < len
    }

    function RxRing(): seq<Byte>
      requires Shaped()
      reads this`rxIn, this`rxOut, this`txIn, this`txOut, rxBuf
    {
      Contents(rxBuf[..], rxOut, rxIn)
    }

    function TxRing(): seq<Byte>
      requires Shaped()
      reads this`rxIn, this`rxOut, this`txIn, this`txOut, txBuf
    {
      Contents(txBuf[..], txOut, txIn)
    }

    /** No byte is lost, duplicated or reordered on its way through either ring. */
    ghost predicate Conserved()
      requires Shaped()
      reads this`rxIn, this`rxOut, this`txIn, this`txOut, this`accepted, this`delivered
      reads dev`sent, dev`taken, rxBuf, txBuf
    {
      && dev.sent + TxRing() == accepted
      && delivered + RxRing() == dev.taken
    }

    /** Waiting bytes will be moved: the interrupt that moves them is on, or about to be switched on. */
    ghost predicate NoLostWakeUp()
      requires Shaped()
      reads this`rxIn, this`rxOut, this`txIn, this`txOut, this`irqRe, this`irqWe, this`txOwed, this`rxOwed
      reads rxBuf, txBuf
    {
      && (TxRing() != [] ==> irqWe || txOwed)
      && (!irqRe ==> |RxRing()| == len - 1 || rxOwed)
    }

    ghost predicate Valid()
      reads this`rxIn, this`rxOut, this`txIn, this`txOut, this`accepted, this`delivered
      reads this`irqRe, this`irqWe, this`txOwed, this`rxOwed, this`hostInactive
      reads dev`sent, dev`taken, dev`re, dev`we, rxBuf, txBuf
    {
      && Shaped()
      && irqRe == dev.re && irqWe == dev.we
      && hostInactive <= LONGEST
      && Conserved()
      && NoLostWakeUp()
    }

    constructor (dev: Device, len: nat, timeout: nat)
      requires len >= 2 && dev.taken == [] && dev.sent == []
      modifies dev
      ensures Valid() && this.dev == dev && this.len == len && this.timeout == timeout
      ensures fresh(rxBuf) && fresh(txBuf)
      ensures RxRing() == [] && TxRing() == [] && accepted == [] && delivered == [] && !txOwed && !rxOwed
      ensures irqRe
    {
      this.dev, this.len, this.timeout := dev, len, timeout;
      hostInactive, silence := 0, 0;
      rxBuf, txBuf := new Byte[len], new Byte[len];
      rxIn, rxOut, txIn, txOut := 0, 0, 0, 0;
      irqRe, irqWe := true, false;
      accepted, delivered, txOwed, rxOwed := [], [], false, false;
      new;
      dev.WriteControl(irqRe, irqWe);
    }

    /** What interrupts may do: shorten the transmit ring and extend the receive ring. */
    twostate predicate Interrupted()
      requires old(Shaped()) && Shaped()
      reads this, dev, rxBuf, txBuf
    {
      && |TxRing()| <= |old(TxRing())| && old(RxRing()) <= RxRing()
      && Later()
    }

    /** The host's stream is the same; if the host counts as inactive now, it did before or the timer found it so. */
    twostate predicate Later()
      reads this`hostInactive, this`silence, dev
    {
      && dev.HostStream() == old(dev.HostStream()) && dev.Onward()
      && silence >= old(silence)
      && (hostInactive >= timeout ==> TimedOut())
      && (timeout > LONGEST ==> silence == old(silence))
    }

    /** The host has counted as inactive at some moment since. */
    twostate predicate TimedOut()
      reads this`silence
    {
      silence > old(silence) || old(hostInactive) >= timeout
    }

    /** All that lets a writer, a reader or a close call spin: no room or no bytes, and a host that counts as active. */
    ghost predicate NoRoomYet()
      requires Shaped()
      reads this`rxIn, this`rxOut, this`txIn, this`txOut, this`hostInactive, txBuf
    {
      |TxRing()| == len - 1 && hostInactive < timeout
    }

    ghost predicate NothingYet()
      requires Shaped()
      reads this`rxIn, this`rxOut, this`txIn, this`txOut, this`hostInactive, rxBuf
    {
      RxRing() == [] && hostInactive < timeout
    }

    // ---------- The interrupt routine ----------

    method StoreRx(data: Byte)
      requires Shaped() && |RxRing()| < len - 1
      modifies this`rxIn, rxBuf
      ensures Shaped() && RxRing() == old(RxRing()) + [data] && TxRing() == old(TxRing())
      ensures txBuf[..] == old(txBuf[..])
    {
      FullWhenNextIsOut(rxBuf[..], rxOut, rxIn);
      PutOne(rxBuf[..], rxOut, rxIn, data);
      WrapIsRemainder(rxIn + 1, len);
      ghost var was := rxBuf[..];
      rxBuf[rxIn] := data;
      assert rxBuf[..] == was[rxIn := data];
      rxIn := (rxIn + 1) % len;
    }

    method ReceiveOne() returns (rvalid: bool, ravail: nat)
      requires Shaped() && delivered + RxRing() == dev.taken && |RxRing()| < len - 1
      modifies this`rxIn, rxBuf, dev`incoming, dev`rxFifo, dev`txFree, dev`contact, dev`contacts, dev`taken
      ensures Shaped() && delivered + RxRing() == dev.taken
      ensures old(RxRing()) <= RxRing() && dev.HostStream() == old(dev.HostStream())
      ensures TxRing() == old(TxRing()) && txBuf[..] == old(txBuf[..])
      ensures dev.txFree >= old(dev.txFree) && dev.Onward()
      ensures old(dev.rxFifo) != [] ==> rvalid
      ensures |dev.Pending()| == |old(dev.Pending())| - (if rvalid then 1 else 0)
      ensures !rvalid ==> ravail == 0
    {
      var data;
      rvalid, data, ravail := dev.ReadData();
      if rvalid {
        StoreRx(data);
        assert delivered + (old(RxRing()) + [data]) == (delivered + old(RxRing())) + [data];
      }
    }

    /**
      Fills the receive ring until it is full or the FIFO is empty. `ravail` is what the last read reported; it
      starts at one because the interrupt says that there is something to read.
     */
    method FillRxRing() returns (ravail: nat)
      requires Shaped() && delivered + RxRing() == dev.taken && dev.rxFifo != []
      modifies this`rxIn, rxBuf, dev`incoming, dev`rxFifo, dev`txFree, dev`contact, dev`contacts, dev`taken
      ensures Shaped() && delivered + RxRing() == dev.taken
      ensures old(RxRing()) <= RxRing() && dev.HostStream() == old(dev.HostStream())
      ensures TxRing() == old(TxRing()) && txBuf[..] == old(txBuf[..])
      ensures dev.txFree >= old(dev.txFree) && dev.Onward()
      ensures ravail > 0 ==> |RxRing()| == len - 1
      ensures |dev.Pending()| <= |old(dev.Pending())|
      ensures ravail == 0 ==> |dev.Pending()| < |old(dev.Pending())|
    {
      hide Contents;
      ravail := 1;
      while true
        invariant Shaped() && delivered + RxRing() == dev.taken
        invariant old(RxRing()) <= RxRing() && dev.HostStream() == old(dev.HostStream())
        invariant TxRing() == old(TxRing()) && txBuf[..] == old(txBuf[..])
        invariant dev.txFree >= old(dev.txFree) && dev.Onward()
        invariant |dev.Pending()| <= |old(dev.Pending())|
        invariant |dev.Pending()| == |old(dev.Pending())| ==> ravail > 0 && dev.rxFifo != []
        decreases |dev.Pending()|
      {
        WrapIsRemainder(rxIn + 1, len);
        FullWhenNextIsOut(rxBuf[..], rxOut, rxIn);
        var next := (rxIn + 1) % len;
        if next == rxOut {
          break;
        }
        var rvalid;
        rvalid, ravail := ReceiveOne();
        if !rvalid {
          break;
        }
      }
    }

    method SendOne()
      requires Shaped() && txOut != txIn && dev.txFree > 0
      modifies this`txOut, dev`incoming, dev`rxFifo, dev`txFree, dev`contact, dev`contacts, dev`sent
      ensures Shaped() && RxRing() == old(RxRing())
      ensures dev.sent + TxRing() == old(dev.sent + TxRing()) && |TxRing()| == |old(TxRing())| - 1
      ensures dev.Pending() == old(dev.Pending()) && dev.txFree >= old(dev.txFree) - 1 && dev.Onward()
    {
      TakeOne(txBuf[..], txOut, txIn);
      WrapIsRemainder(txOut + 1, len);
      dev.WriteData(txBuf[txOut]);
      txOut := (txOut + 1) % len;
    }

    /** Moves bytes from the transmit ring to the device, at most `space`; returns the space left over. */
    method DrainTxRing(space: nat) returns (left: nat)
      requires Shaped() && dev.txFree >= space
      modifies this`txOut, dev`incoming, dev`rxFifo, dev`txFree, dev`contact, dev`contacts, dev`sent
      ensures Shaped() && RxRing() == old(RxRing())
      ensures dev.sent + TxRing() == old(dev.sent + TxRing())
      ensures dev.Pending() == old(dev.Pending()) && dev.Onward()
      ensures left > 0 ==> TxRing() == []
      ensures left + |old(TxRing())| == space + |TxRing()|
    {
      left := space;
      while left > 0 && txOut != txIn
        invariant Shaped() && RxRing() == old(RxRing())
        invariant dev.sent + TxRing() == old(dev.sent + TxRing())
        invariant dev.Pending() == old(dev.Pending()) && dev.Onward()
        invariant dev.txFree >= left
        invariant left + |old(TxRing())| == space + |TxRing()|
        decreases left
      {
        SendOne();
        left := left - 1;
      }
    }

    /** Work the interrupt routine can still find: every pass of its loop uses some of it up. */
    function Work(): nat
      requires Shaped()
      reads this, dev, rxBuf, txBuf
    {
      |dev.Pending()| + |TxRing()| + (if irqRe then 1 else 0) + (if irqWe then 1 else 0)
    }

    /** The receive ring is full: no more read interrupts until the reader makes room. */
    method DisableRx()
      requires Valid() && irqRe && |RxRing()| == len - 1
      modifies this`irqRe, dev`re, dev`we
      ensures Valid() && Interrupted() && Work() < old(Work())
    {
      hide Contents, Conserved;
      irqRe := false;
      dev.WriteControl(irqRe, irqWe);
    }

    /** The transmit ring is empty: no more write interrupts until the writer publishes bytes. */
    method DisableTx()
      requires Valid() && irqWe && TxRing() == []
      modifies this`irqWe, dev`re, dev`we
      ensures Valid() && Interrupted() && Work() < old(Work())
    {
      hide Contents, Conserved;
      irqWe := false;
      dev.WriteControl(irqRe, irqWe);
    }

    method ServeRead()
      requires Valid() && irqRe && dev.rxFifo != []
      modifies this`rxIn, this`irqRe, rxBuf, dev
      ensures Valid() && Interrupted() && Work() < old(Work()) && dev.txFree >= old(dev.txFree)
    {
      var ravail := FillRxRing();
      if ravail > 0 {
        DisableRx();
      }
    }

    method ServeWrite(space: nat)
      requires Valid() && irqWe && 0 < space <= dev.txFree
      modifies this`txOut, this`irqWe, dev
      ensures Valid() && Interrupted() && Work() < old(Work())
    {
      var left := DrainTxRing(space);
      if left > 0 {
        DisableTx();
      }
    }

    /**
      Nothing is left to do: bytes wait in the transmit ring only if the device has no room, and in the receive FIFO
      only if the ring is full. (Or the foreground has yet to enable the interrupt.)
     */
    ghost predicate Served()
      requires Shaped()
      reads this`rxIn, this`rxOut, this`txIn, this`txOut, this`txOwed, this`rxOwed
      reads dev`rxFifo, dev`txFree, rxBuf, txBuf
    {
      && (TxRing() != [] ==> dev.txFree == 0 || txOwed)
      && (dev.rxFifo != [] ==> |RxRing()| == len - 1 || rxOwed)
    }

    /** One pass of the loop: false when neither interrupt is up. */
    method IrqPass() returns (more: bool)
      requires Valid()
      modifies this`rxIn, this`txOut, this`irqRe, this`irqWe, rxBuf, dev
      ensures Valid() && Interrupted()
      ensures more ==> Work() < old(Work())
      ensures !more && dev.eager ==> Served()
    {
      hide Conserved, Contents;
      var ri, wi, space, _ := dev.ReadControl();
      if ri {
        ServeRead();
      }
      if wi {
        ServeWrite(space);
      }
      more := ri || wi;
    }

    /** `altera_avalon_jtag_uart_irq`: it ends, and an eager device is served then. */
    method Irq()
      requires Valid()
      modifies this`rxIn, this`txOut, this`irqRe, this`irqWe, rxBuf, dev
      ensures Valid() && Interrupted()
      ensures dev.eager ==> Served()
    {
      hide Conserved, NoLostWakeUp, Contents, Served;
      var more := true;
      while more
        invariant Valid() && Interrupted()
        invariant !more && dev.eager ==> Served()
        decreases more, Work()
      {
        more := IrqPass();
      }
    }

    /** The time-out counts as over at every second at which the host has been away for that long. */
    method CountInactivity(active: bool)
      requires Valid()
      modifies this`hostInactive, this`silence
      ensures Valid() && Later()
      ensures hostInactive == if active then 0 else AtMost(old(hostInactive) + 1, LONGEST)
      ensures silence == old(silence) + if hostInactive >= timeout then 1 else 0
    {
      hide Conserved, NoLostWakeUp, Contents;
      if active {
        hostInactive := 0;
      } else if hostInactive < LONGEST {
        hostInactive := hostInactive + 1;
      }
      if hostInactive >= timeout {
        silence := silence + 1;
      }
    }

    /** `altera_avalon_jtag_uart_timeout`: once a second, looks at the bit that says whether the host was there. */
    method TimerCallback() returns (active: bool)
      requires Valid()
      modifies this`hostInactive, this`silence, dev
      ensures Valid() && Interrupted()
      ensures active <==> old(dev.contact) || dev.contacts > old(dev.contacts)
      ensures !dev.contact
      ensures hostInactive == if active then 0 else AtMost(old(hostInactive) + 1, LONGEST)
      ensures silence == old(silence) + if hostInactive >= timeout then 1 else 0
    {
      hide Conserved, NoLostWakeUp, Contents;
      var _, _, _, ac := dev.ReadControl();
      active := ac;
      if active {
        dev.WriteControlAndClear(irqRe, irqWe);
      }
      CountInactivity(active);
    }

    /** Between two accesses of the foreground: the host acts, and interrupts come any number of times. */
    method Preempt()
      requires Valid()
      modifies this`rxIn, this`txOut, this`irqRe, this`irqWe, this`hostInactive, this`silence
      modifies rxBuf, dev
      ensures Valid() && Interrupted()
    {
      hide Conserved, NoLostWakeUp, Contents;
      var runs: nat :| runs >= 0;
      dev.HostActs();
      while runs > 0
        invariant Valid() && Interrupted()
      {
        if * {
          Irq();
        } else {
          var _ := TimerCallback();
        }
        runs := runs - 1;
      }
    }

    /**
      Second after second, with interrupts in between: what the timer has counted is how long the host has been away,
      and the time-out is over once that is long enough.
     */
    method Watch(seconds: nat) returns (seen: seq<bool>)
      requires Valid()
      modifies this`rxIn, this`txOut, this`irqRe, this`irqWe, this`hostInactive, this`silence
      modifies rxBuf, dev
      ensures Valid() && Interrupted() && |seen| == seconds
      ensures hostInactive == AtMost(Away(old(hostInactive), seen), 2_147_483_645)
      ensures Away(old(hostInactive), seen) >= timeout && timeout <= LONGEST ==> TimedOut()
    {
      hide Conserved, NoLostWakeUp, Contents;
      seen := [];
      for i := 0 to seconds
        invariant Valid() && Interrupted() && |seen| == i
        invariant hostInactive == AtMost(Away(old(hostInactive), seen), LONGEST)
      {
        if * {
          Irq();
        }
        var active := TimerCallback();
        OneMoreSecond(old(hostInactive), seen, active);
        seen := seen + [active];
      }
    }

    // ---------- The writer ----------

    method StoreTx(i: nat, k: nat, b: Byte)
      requires Valid() && i == txIn && i + k < len && |TxRing()| + k < len - 1
      modifies this`rxIn, this`txOut, this`irqRe, this`irqWe, this`hostInactive, this`silence
      modifies rxBuf, txBuf, dev
      ensures Valid() && Interrupted()
      ensures txBuf[..] == old(txBuf[..])[i + k := b]
    {
      Preempt();
      StoreInFreeSlot(txBuf[..], txOut, i, k, b);
      ghost var was := txBuf[..];
      txBuf[i + k] := b;
      assert txBuf[..] == was[i + k := b];
    }

    /** `memcpy` into the transmit ring: one byte at a time, with interrupts in between. */
    method CopyIn(data: seq<Byte>, i: nat)
      requires Valid() && i == txIn && i + |data| <= len && |TxRing()| + |data| <= len - 1
      modifies this`rxIn, this`txOut, this`irqRe, this`irqWe, this`hostInactive, this`silence
      modifies rxBuf, txBuf, dev
      ensures Valid() && Interrupted()
      ensures txBuf[..][i..i + |data|] == data
    {
      hide Conserved, NoLostWakeUp, Contents;
      for k := 0 to |data|
        invariant Valid() && Interrupted()
        invariant txBuf[..][i..i + k] == data[..k]
      {
        ghost var was := txBuf[..];
        StoreTx(i, k, data[k]);
        StoredNext(was, i, data, k);
      }
    }

    /** The store to `tx_in` that hands the copied bytes to the interrupt routine. */
    method StoreTxIn(i: nat, n: nat)
      requires Valid() && i == txIn && i + n <= len && |TxRing()| + n <= len - 1
      modifies this`txIn, this`accepted, this`txOwed
      ensures Valid() && txOwed && |TxRing()| == |old(TxRing())| + n
      ensures accepted == old(accepted) + txBuf[..][i..i + n]
    {
      hide Contents;
      ghost var run := txBuf[..][i..i + n];
      PublishRun(txBuf[..], txOut, i, n);
      WrapIsRemainder(i + n, len);
      Reassociate(dev.sent, TxRing(), run);
      accepted := accepted + run;
      txOwed := true;
      txIn := (i + n) % len;
    }

    method Publish(i: nat, n: nat)
      requires Valid() && i == txIn && i + n <= len && |TxRing()| + n <= len - 1
      modifies this`rxIn, this`txIn, this`txOut
      modifies this`irqRe, this`irqWe, this`hostInactive, this`silence, this`accepted, this`txOwed
      modifies rxBuf, dev
      ensures Valid() && old(RxRing()) <= RxRing() && Later()
      ensures |TxRing()| <= |old(TxRing())| + n
      ensures accepted == old(accepted) + old(txBuf[..])[i..i + n]
    {
      hide Conserved, NoLostWakeUp, Contents;
      Preempt();
      StoreTxIn(i, n);
      Preempt();
    }

    /** With interrupts off: set the write-enable bit in the mask and in the device. */
    method EnableTx()
      requires Valid()
      modifies this`irqWe, this`hostInactive, this`silence, this`txOwed
      modifies dev
      ensures Valid() && !txOwed && Interrupted()
    {
      irqWe := true;
      dev.WriteControl(irqRe, irqWe);
      txOwed := false;
    }

    /** The length of the next contiguous copy, from `tx_in` and one possibly outdated value of `tx_out`. */
    method TxRoom() returns (i: nat, o: nat, n: nat)
      requires Valid()
      modifies this`rxIn, this`txOut, this`irqRe, this`irqWe, this`hostInactive, this`silence
      modifies rxBuf, dev
      ensures Valid() && Interrupted()
      ensures i == txIn && i + n <= len && |TxRing()| + n <= len - 1
      ensures n == 0 ==> o == Wrap(txIn + 1, len) && |old(TxRing())| == len - 1
    {
      hide Conserved, NoLostWakeUp, Contents;
      i := txIn;
      Preempt();
      o := txOut;
      WriteRoomIsSafe(txBuf[..], o, i);
      FullWhenNextIsOut(txBuf[..], o, i);
      n := WriteRoom(len, i, o);
      Preempt();
    }

    /** Copies bytes behind `tx_in` and publishes them. */
    method PutRun(data: seq<Byte>, i: nat)
      requires Valid() && i == txIn && i + |data| <= len && |TxRing()| + |data| <= len - 1
      modifies this`rxIn, this`txIn, this`txOut
      modifies this`irqRe, this`irqWe, this`hostInactive, this`silence, this`accepted, this`txOwed
      modifies rxBuf, txBuf, dev
      ensures Valid() && old(RxRing()) <= RxRing() && Later()
      ensures |TxRing()| <= |old(TxRing())| + |data| && accepted == old(accepted) + data
    {
      hide Conserved, NoLostWakeUp, Contents;
      CopyIn(data, i);
      Publish(i, |data|);
    }

    /** One contiguous copy into the ring; `o` is the value of `tx_out` that its length was computed from. */
    method CopyChunk(data: seq<Byte>) returns (n: nat, o: nat)
      requires Valid() && data != []
      modifies this`rxIn, this`txIn, this`txOut
      modifies this`irqRe, this`irqWe, this`hostInactive, this`silence, this`accepted, this`txOwed
      modifies rxBuf, txBuf, dev
      ensures Valid() && old(RxRing()) <= RxRing() && Later()
      ensures n <= |data| && accepted == old(accepted) + data[..n]
      ensures |TxRing()| <= |old(TxRing())| + n
      ensures n == 0 ==> o == Wrap(txIn + 1, len) && |old(TxRing())| == len - 1
    {
      hide Conserved, NoLostWakeUp, Contents;
      var i;
      i, o, n := TxRoom();
      if n > 0 {
        if n > |data| {
          n := |data|;
        }
        PutRun(data[..n], i);
      }
    }

    /**
      Copies as much as fits. `o` is the last value read of `tx_out`: if bytes are left over, the ring was full
      when it was read.
     */
    method FillTxRing(data: seq<Byte>) returns (pos: nat, o: nat)
      requires Valid()
      modifies this`rxIn, this`txIn, this`txOut
      modifies this`irqRe, this`irqWe, this`hostInactive, this`silence, this`accepted, this`txOwed
      modifies rxBuf, txBuf, dev
      ensures Valid() && old(RxRing()) <= RxRing() && Later()
      ensures pos <= |data| && accepted == old(accepted) + data[..pos]
      ensures |TxRing()| <= |old(TxRing())| + pos
      ensures pos < |data| ==> o == Wrap(txIn + 1, len) && |old(TxRing())| + pos >= len - 1
    {
      hide Conserved, NoLostWakeUp, Contents;
      pos, o := 0, 0;
      while pos < |data|
        invariant Valid() && old(RxRing()) <= RxRing() && Later()
        invariant pos <= |data| && accepted == old(accepted) + data[..pos]
        invariant |TxRing()| <= |old(TxRing())| + pos
      {
        var n;
        n, o := CopyChunk(data[pos..]);
        if n == 0 {
          break;
        }
        PrefixNext(data, pos, n);
        pos := pos + n;
      }
    }

    /**
      Spins until the interrupt routine has moved `tx_out` away from `o`, or the host has been away too long; or it is
      still waiting.
     */
    method SpinTx(o: nat) returns (moved: bool, waiting: bool)
      requires Valid() && o == Wrap(txIn + 1, len)
      modifies this`rxIn, this`txOut, this`irqRe, this`irqWe, this`hostInactive, this`silence
      modifies rxBuf, dev
      ensures Valid() && Interrupted()
      ensures moved ==> |TxRing()| < len - 1
      ensures !moved ==> waiting || TimedOut()
      ensures waiting ==> !moved && NoRoomYet()
    {
      hide Conserved, NoLostWakeUp, Contents;
      var patience: nat :| patience >= 0;
      while o == txOut && hostInactive < timeout
        invariant Valid() && Interrupted()
        decreases patience
      {
        if patience == 0 {
          FullWhenNextIsOut(txBuf[..], txOut, txIn);
          return false, true;
        }
        Preempt();
        patience := patience - 1;
      }
      FullWhenNextIsOut(txBuf[..], txOut, txIn);
      Preempt();
      FullWhenNextIsOut(txBuf[..], txOut, txIn);
      moved, waiting := o != txOut, false;
    }

    /** One pass of the outer loop: copy, enable the interrupt, and wait if there is more to write. */
    method WritePass(data: seq<Byte>, nonBlocking: bool) returns (n: nat, goOn: bool, waiting: bool)
      requires Valid()
      modifies this`rxIn, this`txIn, this`txOut
      modifies this`irqRe, this`irqWe, this`hostInactive, this`silence, this`accepted, this`txOwed
      modifies rxBuf, txBuf, dev
      ensures Valid() && !txOwed && old(RxRing()) <= RxRing() && Later()
      ensures n <= |data| && accepted == old(accepted) + data[..n]
      ensures |TxRing()| <= |old(TxRing())| + n
      ensures n < |data| ==> |old(TxRing())| + n >= len - 1
      ensures goOn ==> n < |data| && |TxRing()| < len - 1
      ensures !goOn ==> n == |data| || nonBlocking || waiting || TimedOut()
      ensures waiting ==> !goOn && n < |data| && !nonBlocking && NoRoomYet()
    {
      hide Conserved, NoLostWakeUp, Contents, RxRing, TxRing, NoRoomYet;
      var o;
      n, o := FillTxRing(data);
      EnableTx();
      Preempt();
      goOn, waiting := false, false;
      if n < |data| && !nonBlocking {
        goOn, waiting := SpinTx(o);
      }
    }

    /**
      `altera_avalon_jtag_uart_write`. The count it returns is the length of the prefix that was accepted, and
      only that prefix enters the stream to the device.
     */
    method Write(data: seq<Byte>, nonBlocking: bool) returns (r: Return)
      requires Valid() && !txOwed
      modifies this`rxIn, this`txIn, this`txOut
      modifies this`irqRe, this`irqWe, this`hostInactive, this`silence, this`accepted, this`txOwed
      modifies rxBuf, txBuf, dev
      ensures Valid() && !txOwed && old(RxRing()) <= RxRing() && Later()
      ensures Taken(r) <= |data| && accepted == old(accepted) + data[..Taken(r)]
      ensures r == if r.Waiting? then Waiting(Taken(r)) else Result(Taken(r), nonBlocking)
      ensures Taken(r) < |data| ==> nonBlocking || r.Waiting? || TimedOut()
      ensures r.Waiting? ==> Taken(r) < |data| && !nonBlocking && NoRoomYet()
      ensures r.WouldBlock? ==> nonBlocking
      ensures r.IoError? ==> !nonBlocking && (data == [] || TimedOut())
      ensures r.Count? ==> r.n > 0
      ensures Taken(r) < |data| ==> Taken(r) + |old(TxRing())| >= len - 1
    {
      hide Conserved, NoLostWakeUp, Contents, RxRing, TxRing, NoRoomYet;
      var pos, waiting := 0, false;
      while true
        invariant Valid() && old(RxRing()) <= RxRing() && Later()
        invariant pos <= |data| && accepted == old(accepted) + data[..pos]
        invariant !waiting && (pos == 0 || pos < |data|)
        invariant |TxRing()| <= |old(TxRing())| + pos
        decreases |data| - pos, if |TxRing()| >= len - 1 then 1 else 0
      {
        var n, goOn;
        n, goOn, waiting := WritePass(data[pos..], nonBlocking);
        PrefixAfter(old(accepted), data, pos, n);
        pos := pos + n;
        if !goOn {
          break;
        }
      }
      r := if waiting then Waiting(pos) else Result(pos, nonBlocking);
    }

    /**
      `altera_avalon_jtag_uart_close`. When it reports success, everything that was ever accepted has reached the
      device, or the host has been away too long.
     */
    method Close(nonBlocking: bool) returns (r: Return)
      requires Valid() && !txOwed
      modifies this`rxIn, this`txOut, this`irqRe, this`irqWe, this`hostInactive, this`silence
      modifies rxBuf, dev
      ensures Valid() && Interrupted()
      ensures r == Count(0) ==> (TxRing() == [] && dev.sent == accepted) || TimedOut()
      ensures r != Count(0) ==> r == if nonBlocking then WouldBlock else Waiting(0)
      ensures r != Count(0) ==> TxRing() != [] && hostInactive < timeout
    {
      var patience: nat :| patience >= 0;
      while txOut != txIn && hostInactive < timeout
        invariant Valid() && Interrupted()
        decreases patience
      {
        EmptyWhenEqual(txBuf[..], txOut, txIn);
        if nonBlocking {
          return WouldBlock;
        }
        if patience == 0 {
          return Waiting(0);
        }
        Preempt();
        patience := patience - 1;
      }
      EmptyWhenEqual(txBuf[..], txOut, txIn);
      r := Count(0);
    }

    // ---------- The reader ----------

    /** The length of the next contiguous copy, from one possibly outdated value of `rx_in` and from `rx_out`. */
    method RxRun(space: nat) returns (i: nat, o: nat, n: nat)
      requires Valid() && space > 0
      modifies this`rxIn, this`txOut, this`irqRe, this`irqWe, this`hostInactive, this`silence
      modifies rxBuf, dev
      ensures Valid() && Interrupted()
      ensures o == rxOut && o + n <= len && n <= |RxRing()| && n <= space
      ensures n == 0 ==> i == o && old(RxRing()) == []
    {
      hide Conserved, NoLostWakeUp, Contents;
      ReadRunIsSafe(rxBuf[..], rxOut, rxIn);
      i := rxIn;
      o := rxOut;
      n := ReadRun(len, i, o);
      if n > space {
        n := space;
      }
      Preempt();
    }

    method LoadRx(o: nat, n: nat, k: nat) returns (b: Byte)
      requires Valid() && o == rxOut && o + n <= len && k < n <= |RxRing()|
      modifies this`rxIn, this`txOut, this`irqRe, this`irqWe, this`hostInactive, this`silence
      modifies rxBuf, dev
      ensures Valid() && Interrupted()
      ensures b == old(RxRing())[k]
    {
      hide Contents, Conserved, NoLostWakeUp;
      ghost var ring := RxRing();
      Preempt();
      RetireRun(rxBuf[..], o, rxIn, n);
      b := rxBuf[o + k];
      assert b == rxBuf[..][o..o + n][k] == RxRing()[k];
    }

    /** `memcpy` out of the receive ring: one byte at a time, with interrupts in between. */
    method CopyOut(buffer: array<Byte>, pos: nat, o: nat, n: nat)
      requires Valid() && buffer != rxBuf && buffer != txBuf
      requires o == rxOut && o + n <= len && n <= |RxRing()| && pos + n <= buffer.Length
      modifies this`rxIn, this`txOut, this`irqRe, this`irqWe, this`hostInactive, this`silence
      modifies rxBuf, dev, buffer
      ensures Valid() && Interrupted()
      ensures buffer[..][pos..pos + n] == old(RxRing())[..n]
      ensures buffer[..][..pos] == old(buffer[..])[..pos] && buffer[..][pos + n..] == old(buffer[..])[pos + n..]
    {
      hide Conserved, NoLostWakeUp, Contents;
      ghost var ring := RxRing();
      for k := 0 to n
        invariant Valid() && Interrupted()
        invariant buffer[..][pos..pos + k] == ring[..k]
        invariant buffer[..][..pos] == old(buffer[..])[..pos] && buffer[..][pos + k..] == old(buffer[..])[pos + k..]
      {
        var b := LoadRx(o, n, k);
        assert b == ring[k];
        ghost var was := buffer[..];
        buffer[pos + k] := b;
        assert buffer[..] == was[pos + k := b];
        StoredNext(was, pos, ring, k);
      }
    }

    /** The store to `rx_out` that gives the copied slots back to the interrupt routine. */
    method StoreRxOut(o: nat, n: nat)
      requires Valid() && o == rxOut && o + n <= len && n <= |RxRing()|
      modifies this`rxOut, this`delivered, this`rxOwed
      ensures Valid() && rxOwed && old(RxRing()) == old(RxRing())[..n] + RxRing()
      ensures delivered == old(delivered) + old(RxRing())[..n]
    {
      hide Contents;
      ghost var run, rest := rxBuf[..][o..o + n], Contents(rxBuf[..], Wrap(o + n, len), rxIn);
      RetireRun(rxBuf[..], o, rxIn, n);
      WrapIsRemainder(o + n, len);
      Reassociate(delivered, run, rest);
      delivered := delivered + run;
      rxOwed := true;
      rxOut := (o + n) % len;
    }

    method Retire(o: nat, n: nat)
      requires Valid() && o == rxOut && o + n <= len && n <= |RxRing()|
      modifies this`rxIn, this`rxOut, this`txOut
      modifies this`irqRe, this`irqWe, this`hostInactive, this`silence, this`delivered, this`rxOwed
      modifies rxBuf, dev
      ensures Valid() && |TxRing()| <= |old(TxRing())| && Later()
      ensures delivered == old(delivered) + old(RxRing())[..n]
      ensures |RxRing()| + n >= |old(RxRing())|
    {
      hide Conserved, NoLostWakeUp, Contents;
      Preempt();
      StoreRxOut(o, n);
      Preempt();
    }

    /** With interrupts off: set the read-enable bit in the mask and in the device. */
    method EnableRx()
      requires Valid()
      modifies this`irqRe, this`rxOwed, dev
      ensures Valid() && !rxOwed && Interrupted()
    {
      irqRe := true;
      dev.WriteControl(irqRe, irqWe);
      rxOwed := false;
    }

    /** One contiguous copy out of the ring; `i` is the value of `rx_in` that its length was computed from. */
    method TakeChunk(buffer: array<Byte>, pos: nat) returns (n: nat, i: nat)
      requires Valid() && buffer != rxBuf && buffer != txBuf && pos < buffer.Length
      modifies this`rxIn, this`rxOut, this`txOut
      modifies this`irqRe, this`irqWe, this`hostInactive, this`silence, this`delivered, this`rxOwed
      modifies rxBuf, dev, buffer
      ensures Valid() && |TxRing()| <= |old(TxRing())| && Later()
      ensures pos + n <= buffer.Length && delivered == old(delivered) + buffer[pos..pos + n]
      ensures buffer[..pos] == old(buffer[..pos]) && buffer[pos + n..] == old(buffer[pos + n..])
      ensures |RxRing()| + n >= |old(RxRing())|
      ensures n == 0 ==> i == rxOut && old(RxRing()) == [] && rxOwed == old(rxOwed)
    {
      hide Conserved, NoLostWakeUp, Contents;
      var o;
      i, o, n := RxRun(buffer.Length - pos);
      if n > 0 {
        ghost var run := RxRing()[..n];
        CopyOut(buffer, pos, o, n);
        assert RxRing()[..n] == run;
        Retire(o, n);
      }
    }

    /** Spins until the interrupt routine has moved `rx_in` away from `i`, or the host has been away too long. */
    method SpinRx(i: nat) returns (moved: bool, waiting: bool)
      requires Valid() && i == rxOut
      modifies this`rxIn, this`txOut, this`irqRe, this`irqWe, this`hostInactive, this`silence
      modifies rxBuf, dev
      ensures Valid() && Interrupted()
      ensures moved ==> RxRing() != []
      ensures !moved ==> waiting || TimedOut()
      ensures waiting ==> !moved && NothingYet()
    {
      hide Conserved, NoLostWakeUp;
      var patience: nat :| patience >= 0;
      while i == rxIn && hostInactive < timeout
        invariant Valid() && Interrupted()
        decreases patience
      {
        if patience == 0 {
          return false, true;
        }
        Preempt();
        patience := patience - 1;
      }
      Preempt();
      moved, waiting := i != rxIn, false;
    }

    /** Copies until the buffer is full or the ring has been seen empty. */
    method DrainRxRing(buffer: array<Byte>) returns (pos: nat, i: nat)
      requires Valid() && buffer != rxBuf && buffer != txBuf && buffer.Length > 0
      modifies this`rxIn, this`rxOut, this`txOut
      modifies this`irqRe, this`irqWe, this`hostInactive, this`silence, this`delivered, this`rxOwed
      modifies rxBuf, dev, buffer
      ensures Valid() && |TxRing()| <= |old(TxRing())| && Later()
      ensures pos <= buffer.Length && delivered == old(delivered) + buffer[..pos]
      ensures buffer[pos..] == old(buffer[pos..])
      ensures pos < buffer.Length ==> pos >= |old(RxRing())|
      ensures pos == 0 ==> i == rxOut && rxOwed == old(rxOwed)
    {
      hide Conserved, NoLostWakeUp, Contents;
      pos, i := 0, 0;
      while true
        invariant Valid() && |TxRing()| <= |old(TxRing())| && Later()
        invariant pos < buffer.Length && delivered == old(delivered) + buffer[..pos]
        invariant buffer[pos..] == old(buffer[pos..])
        invariant |RxRing()| + pos >= |old(RxRing())|
        invariant pos == 0 ==> rxOwed == old(rxOwed)
        decreases buffer.Length - pos
      {
        var n;
        ghost var head := buffer[..pos];
        n, i := TakeChunk(buffer, pos);
        assert buffer[..pos + n] == head + buffer[pos..pos + n];
        assert buffer[pos + n..] == old(buffer[pos..])[n..];
        pos := pos + n;
        if n == 0 || pos == buffer.Length {
          break;
        }
      }
    }

    /** One pass of the outer loop: copy what is there, and wait if there was nothing. */
    method ReadPass(buffer: array<Byte>, nonBlocking: bool) returns (pos: nat, goOn: bool, waiting: bool)
      requires Valid() && buffer != rxBuf && buffer != txBuf && buffer.Length > 0
      modifies this`rxIn, this`rxOut, this`txOut
      modifies this`irqRe, this`irqWe, this`hostInactive, this`silence, this`delivered, this`rxOwed
      modifies rxBuf, dev, buffer
      ensures Valid() && |TxRing()| <= |old(TxRing())| && Later()
      ensures pos <= buffer.Length && delivered == old(delivered) + buffer[..pos]
      ensures buffer[pos..] == old(buffer[pos..])
      ensures pos < buffer.Length ==> pos >= |old(RxRing())|
      ensures pos == 0 ==> rxOwed == old(rxOwed)
      ensures goOn ==> pos == 0 && !nonBlocking && RxRing() != []
      ensures pos == 0 && !goOn ==> nonBlocking || waiting || TimedOut()
      ensures waiting ==> pos == 0 && !goOn && !nonBlocking && NothingYet()
    {
      hide Conserved, NoLostWakeUp, Contents;
      var i;
      pos, i := DrainRxRing(buffer);
      goOn, waiting := false, false;
      if pos == 0 && !nonBlocking {
        goOn, waiting := SpinRx(i);
      }
    }

    /**
      `altera_avalon_jtag_uart_read`. The bytes it puts at the front of the buffer are the next ones the device
      received, and the count it returns says how many they are.
     */
    method Read(buffer: array<Byte>, nonBlocking: bool) returns (r: Return)
      requires Valid() && !rxOwed && buffer != rxBuf && buffer != txBuf
      modifies this`rxIn, this`rxOut, this`txOut
      modifies this`irqRe, this`irqWe, this`hostInactive, this`silence, this`delivered, this`rxOwed
      modifies rxBuf, dev, buffer
      ensures Valid() && !rxOwed && |TxRing()| <= |old(TxRing())| && Later()
      ensures Taken(r) <= buffer.Length && delivered == old(delivered) + buffer[..Taken(r)]
      ensures buffer[Taken(r)..] == old(buffer[Taken(r)..])
      ensures r == if r.Waiting? then Waiting(0) else Result(Taken(r), nonBlocking)
      ensures Taken(r) == 0 ==> buffer.Length == 0 || nonBlocking || r.Waiting? || TimedOut()
      ensures r.Waiting? ==> buffer.Length > 0 && !nonBlocking && NothingYet()
      ensures r.WouldBlock? ==> nonBlocking
      ensures r.IoError? ==> !nonBlocking && (buffer.Length == 0 || TimedOut())
      ensures r.Count? ==> r.n > 0
      ensures Taken(r) < buffer.Length ==> Taken(r) >= |old(RxRing())|
    {
      hide Conserved, NoLostWakeUp, Contents;
      var pos, waiting := 0, false;
      while pos < buffer.Length
        invariant Valid() && !rxOwed && |TxRing()| <= |old(TxRing())| && Later()
        invariant pos == 0 && !waiting && delivered == old(delivered) && buffer[..] == old(buffer[..])
        invariant |RxRing()| >= |old(RxRing())|
        decreases if RxRing() == [] then 1 else 0
      {
        var goOn;
        pos, goOn, waiting := ReadPass(buffer, nonBlocking);
        if waiting {
          return Waiting(0);
        }
        if !goOn {
          break;
        }
      }
      if pos > 0 {
        EnableRx();
      }
      Preempt();
      r := Result(pos, nonBlocking);
    }

    // ---------- Nothing spins for ever ----------

    /** A writer that still spins can go on after one interrupt of an eager device that has room. */
    method ReleaseWriter()
      requires Valid() && !txOwed && NoRoomYet() && dev.eager && dev.txFree > 0
      modifies this`rxIn, this`txOut, this`irqRe, this`irqWe, rxBuf, dev
      ensures Valid() && |TxRing()| < len - 1
    {
      Irq();
    }

    /** A reader that still spins can go on after one interrupt of an eager device that has a byte. */
    method ReleaseReader()
      requires Valid() && !rxOwed && NothingYet() && dev.eager && dev.rxFifo != []
      modifies this`rxIn, this`txOut, this`irqRe, this`irqWe, rxBuf, dev
      ensures Valid() && RxRing() != []
    {
      Irq();
    }
  }

  /** One more byte of `data` stored from place `i` on. */
  lemma StoredNext(was: seq<Byte>, i: nat, data: seq<Byte>, k: nat)
    requires k < |data| && i + k < |was| && was[i..i + k] == data[..k]
    ensures was[i + k := data[k]][i..i + k + 1] == data[..k + 1]
    ensures was[i + k := data[k]][..i] == was[..i]
    ensures was[i + k := data[k]][i + k + 1..] == was[i + k..][1..]
  {
    var now := was[i + k := data[k]];
    assert now[i..i + k + 1] == was[i..i + k] + [data[k]];
    assert data[..k + 1] == data[..k] + [data[k]];
  }

  lemma Reassociate(a: seq<Byte>, b: seq<Byte>, c: seq<Byte>)
    ensures (a + b) + c == a + (b + c)
  {
  }

  lemma PrefixAfter(before: seq<Byte>, data: seq<Byte>, pos: nat, n: nat)
    requires pos + n <= |data|
    ensures before + data[..pos] + data[pos..][..n] == before + data[..pos + n]
  {
    PrefixNext(data, pos, n);
  }

  lemma PrefixNext(data: seq<Byte>, pos: nat, n: nat)
    requires pos + n <= |data|
    ensures data[..pos + n] == data[..pos] + data[pos..][..n]
    ensures data[..pos + n] == data[..pos] + data[pos..pos + n]
    ensures data[pos..][n..] == data[pos + n..]
  {
  }

  function AtMost(n: nat, most: nat): nat {
    if n <= most then n else most
  }

  /** How many seconds in a row the host has been away, when it had been away for `before` at first. */
  function Away(before: nat, seen: seq<bool>): nat {
    if seen == [] then before
    else if seen[|seen| - 1] then 0
    else Away(before, seen[..|seen| - 1]) + 1
  }

  lemma OneMoreSecond(before: nat, seen: seq<bool>, active: bool)
    ensures Away(before, seen + [active]) == if active then 0 else Away(before, seen) + 1
  {
    assert (seen + [active])[..|seen|] == seen;
  }

  /** How many bytes a return value stands for. */
  function Taken(r: Return): nat {
    if r.Count? || r.Waiting? then r.n else 0
  }

  /** The return value for `n` bytes. */
  function Result(n: nat, nonBlocking: bool): Return {
    if n > 0 then Count(n) else if nonBlocking then WouldBlock else IoError
  }

  // ---------- Any sequence of calls ----------

  datatype Call =
    | WriteCall(data: seq<Byte>, nonBlocking: bool)
    | ReadCall(space: nat, nonBlocking: bool)
    | CloseCall(nonBlocking: bool)

  /** The prefix of its data that a write call says it accepted. */
  function AcceptedOf(call: Call, r: Return): seq<Byte> {
    match call
    case WriteCall(data, _) => if Taken(r) <= |data| then data[..Taken(r)] else []
    case _ => []
  }

  /** How many bytes a read call says it delivered. */
  function DeliveredOf(call: Call, r: Return): nat {
    if call.ReadCall? then Taken(r) else 0
  }

  /** The accepted prefixes of the write calls, one after the other. */
  function AcceptedBy(calls: seq<Call>, results: seq<Return>): seq<Byte>
    requires |calls| == |results|
  {
    if calls == [] then []
    else
      var n := |calls| - 1;
      AcceptedBy(calls[..n], results[..n]) + AcceptedOf(calls[n], results[n])
  }

  function DeliveredBy(calls: seq<Call>, results: seq<Return>): nat
    requires |calls| == |results|
  {
    if calls == [] then 0
    else
      var n := |calls| - 1;
      DeliveredBy(calls[..n], results[..n]) + DeliveredOf(calls[n], results[n])
  }

  /** What a call may answer: an error says whether it was to block, and a count is never zero. */
  predicate Answers(call: Call, r: Return) {
    match call
    case WriteCall(data, nonBlocking) => Transferred(r, |data|, nonBlocking)
    case ReadCall(space, nonBlocking) => Transferred(r, space, nonBlocking)
    case CloseCall(nonBlocking) => r == Count(0) || r == if nonBlocking then WouldBlock else Waiting(0)
  }

  predicate Transferred(r: Return, most: nat, nonBlocking: bool) {
    && Taken(r) <= most && (r.Count? ==> r.n > 0)
    && (r.WouldBlock? ==> nonBlocking) && (r.IoError? || r.Waiting? ==> !nonBlocking)
  }

  /** A call that was to block has done what it is for, or it has not returned. */
  predicate Fulfilled(call: Call, r: Return) {
    match call
    case WriteCall(data, nonBlocking) => Taken(r) == |data| || nonBlocking || r.Waiting?
    case ReadCall(space, nonBlocking) => Taken(r) > 0 || space == 0 || nonBlocking || r.Waiting?
    case CloseCall(_) => true
  }

  lemma OneMoreCall(calls: seq<Call>, results: seq<Return>, k: nat, r: Return)
    requires k < |calls| && |results| == k
    ensures AcceptedBy(calls[..k + 1], results + [r]) == AcceptedBy(calls[..k], results) + AcceptedOf(calls[k], r)
    ensures DeliveredBy(calls[..k + 1], results + [r]) == DeliveredBy(calls[..k], results) + DeliveredOf(calls[k], r)
  {
    assert calls[..k + 1][..k] == calls[..k] && (results + [r])[..k] == results;
  }

  /** One call; `got` is what a read puts into the caller's buffer. */
  method Perform(d: Driver, call: Call) returns (r: Return, got: seq<Byte>)
    requires d.Valid() && !d.txOwed && !d.rxOwed
    modifies d, d.rxBuf, d.txBuf, d.dev
    ensures d.Valid() && !d.txOwed && !d.rxOwed && d.dev.HostStream() == old(d.dev.HostStream())
    ensures d.accepted == old(d.accepted) + AcceptedOf(call, r)
    ensures d.delivered == old(d.delivered) + got && |got| == DeliveredOf(call, r)
    ensures d.Later() && Answers(call, r) && (Fulfilled(call, r) || d.TimedOut())
    ensures call.CloseCall? && r == Count(0) ==> d.TxRing() == [] || d.TimedOut()
    ensures r.Waiting? ==> d.hostInactive < d.timeout
  {
    hide Driver.Conserved, Driver.NoLostWakeUp, Contents;
    match call {
      case WriteCall(data, nonBlocking) =>
        r := d.Write(data, nonBlocking);
        got := [];
      case ReadCall(space, nonBlocking) =>
        var buffer := new Byte[space];
        r := d.Read(buffer, nonBlocking);
        got := buffer[..Taken(r)];
      case CloseCall(nonBlocking) =>
        r := d.Close(nonBlocking);
        got := [];
    }
  }

  lemma NoCalls()
    ensures AcceptedBy([], []) == [] && DeliveredBy([], []) == 0
  {
  }

  /** What the invariant says between two calls. */
  lemma Balance(d: Driver, got: seq<Byte>)
    requires d.Valid() && !d.txOwed && !d.rxOwed && d.delivered == got
    ensures d.dev.sent + d.TxRing() == d.accepted
    ensures got + d.RxRing() + d.dev.Pending() == d.dev.HostStream()
    ensures d.TxRing() != [] ==> d.dev.we
    ensures |d.RxRing()| < d.len - 1 ==> d.dev.re
  {
  }

  /**
    From a fresh driver, over any sequence of calls under any interrupts: what the device has been sent and what
    still waits in the ring are the accepted prefixes in call order, what the readers got is the beginning of
    what the host sends, as long as their return values say, and waiting bytes have their interrupt switched on.
    The calls end early if one of them does not return; the host counts as active then. Unless the host has been away
    for the time-out, every call that was to block has done what it is for.
   */
  method Session(d: Driver, calls: seq<Call>) returns (results: seq<Return>, got: seq<Byte>)
    requires d.Valid() && !d.txOwed && !d.rxOwed && d.accepted == [] && d.delivered == []
    modifies d, d.rxBuf, d.txBuf, d.dev
    ensures d.Valid() && |results| <= |calls|
    ensures |results| < |calls| ==> results != [] && results[|results| - 1].Waiting? && d.hostInactive < d.timeout
    ensures forall k :: 0 <= k < |results| ==> Answers(calls[k], results[k])
    ensures d.TimedOut() || forall k :: 0 <= k < |results| ==> Fulfilled(calls[k], results[k])
    ensures d.dev.sent + d.TxRing() == AcceptedBy(calls[..|results|], results)
    ensures got + d.RxRing() + d.dev.Pending() == old(d.dev.HostStream())
    ensures |got| == DeliveredBy(calls[..|results|], results)
    ensures d.TxRing() != [] ==> d.dev.we
    ensures |d.RxRing()| < d.len - 1 ==> d.dev.re
  {
    hide AcceptedBy, DeliveredBy, Answers, Fulfilled, Driver.Conserved, Driver.NoLostWakeUp, Contents;
    NoCalls();
    results, got := [], [];
    assert calls[..0] == [];
    for k := 0 to |calls|
      invariant d.Valid() && !d.txOwed && !d.rxOwed && |results| == k
      invariant d.Later()
      invariant forall j :: 0 <= j < k ==> Answers(calls[j], results[j])
      invariant d.TimedOut() || forall j :: 0 <= j < k ==> Fulfilled(calls[j], results[j])
      invariant d.accepted == AcceptedBy(calls[..k], results)
      invariant d.delivered == got && |got| == DeliveredBy(calls[..k], results)
    {
      var r, more := Perform(d, calls[k]);
      OneMoreCall(calls, results, k, r);
      results, got := results + [r], got + more;
      if r.Waiting? {
        break;
      }
    }
    Balance(d, got);
  }
}
