/** The interrupt-driven JTAG UART driver.

    A writing thread calls Write and Close, a reading thread calls Read; they are one
    thread if the driver is `alone`.  Between any two of its accesses to shared state a
    thread may be preempted: the hardware, the interrupt routine, the once-a-second
    alarm and the accesses of the other thread then happen any number of times.  The
    hardware also moves between the register accesses of the interrupt routine.

    `activity` bounds how much of that outside work the run under study contains.
    It is an arbitrary number, so every contract below speaks of every finite
    prefix of every interleaving.  A call that is still spinning when the prefix
    ends reports Waiting. */
module JtagUart {
  import opened Ring

  const WRITE_DEPTH: nat := 64
  const READ_DEPTH: nat := 64

  const INT_MAX: int := 0x7FFF_FFFF

  const EIO: int := 5
  const EWOULDBLOCK: int := 11

  /** The RE and WE bits of the control register, or of the driver's copy of it. */
  datatype Enables = Enables(re: bool, we: bool)

  /** What a read of the control register reports. */
  datatype Control = Control(ri: bool, wi: bool, wspace: nat)

  /** What a read of the data register reports: a byte if `valid`, and whether
      more bytes remain behind it. */
  datatype Data = Data(valid: bool, avail: bool, value: byte)

  /** A C return value, or a call that has moved `moved` bytes and is still
      spinning at the end of the run. */
  datatype Outcome = Returned(value: int) | Waiting(moved: nat)

  /** Moving the first element of the middle part to the end of the left part. */
  lemma Shift<T>(a: seq<T>, b: seq<T>, c: seq<T>)
    requires b != []
    ensures (a + [b[0]]) + b[1..] + c == a + b + c
  {
  }

  /** Moving the first element of the right part to the end of the middle part. */
  lemma Regroup<T>(a: seq<T>, b: seq<T>, c: seq<T>)
    requires c != []
    ensures a + (b + [c[0]]) + c[1..] == a + b + c
  {
  }

  /** How many bytes may be stored contiguously at the producer's index, given a
      snapshot of the consumer's: never past the end of the buffer, never so many
      that the ring would look empty, and none only if the ring is full. */
  function Room(out: nat, inn: nat): (n: nat)
    requires out < BUF_LEN && inn < BUF_LEN
    ensures inn + n <= BUF_LEN && Used(out, inn) + n <= BUF_LEN - 1
    ensures inn + n == BUF_LEN || Used(out, inn) + n == BUF_LEN - 1
    ensures n == 0 <==> Used(out, inn) == BUF_LEN - 1
  {
    if inn < out then out - 1 - inn
    else if out > 0 then BUF_LEN - inn
    else BUF_LEN - 1 - inn
  }

  /** How many bytes lie contiguously at the consumer's index, given the producer's: none
      only if the ring is empty. */
  function Stretch(out: nat, inn: nat): (n: nat)
    requires out < BUF_LEN && inn < BUF_LEN
    ensures out + n <= BUF_LEN && n <= Used(out, inn)
    ensures n == 0 <==> out == inn
    ensures out + n == BUF_LEN || n == Used(out, inn)
  {
    if inn >= out then inn - out else BUF_LEN - out
  }

  lemma Advance<T>(a: seq<T>, data: seq<T>, p: nat, n: nat)
    requires p + n <= |data|
    ensures a + data[..p] + data[p..][..n] == a + data[..p + n]
  {
  }

  lemma Append<T>(a: seq<T>, before: seq<T>, was: seq<T>, now: seq<T>, p: nat, n: nat)
    requires p + n <= |was| == |now| && was[..p] == now[..p] && before == a + was[..p]
    ensures before + now[p..p + n] == a + now[..p + n]
  {
  }

  class Driver {
    // The driver's state structure.
    const tx_buf: array<byte>
    const rx_buf: array<byte>
    var txIn: nat
    var txOut: nat
    var rxIn: nat
    var rxOut: nat
    var irqEnable: Enables
    var hostInactive: nat
    var timeout: nat

    // The device.
    var control: Enables
    var rxFifo: seq<byte>
    var txFifo: seq<byte>
    var hostActive: bool
    // Which interrupts the device has a reason to raise, should they be enabled.
    var raised: Enables

    // How much outside activity is still to come in this run.
    var activity: nat

    // History: what the host sent and received, what writes took from their
    // callers and what reads gave to theirs.
    ghost var hostSent: seq<byte>
    ghost var hostReceived: seq<byte>
    ghost var accepted: seq<byte>
    ghost var delivered: seq<byte>

    // How often the host has been found inactive for the whole of the timeout.
    ghost var silences: nat

    // Only one thread uses the driver: no other one runs while a call is preempted.
    const alone: bool

    // The thread has published bytes (taken bytes) and has yet to enable the
    // transmit (receive) interrupt.
    ghost var owesWe: bool
    ghost var owesRe: bool

    ghost predicate Shape()
      reads this
    {
      && tx_buf.Length == BUF_LEN && rx_buf.Length == BUF_LEN && tx_buf != rx_buf
      && txIn < BUF_LEN && txOut < BUF_LEN && rxIn < BUF_LEN && rxOut < BUF_LEN
      && |rxFifo| <= READ_DEPTH && |txFifo| <= WRITE_DEPTH
      && timeout > 0
    }

    /** The bytes in the transmit ring, oldest first. */
    ghost function TxRing(): seq<byte>
      requires Shape()
      reads this, tx_buf
    {
      Live(tx_buf[..], txOut, txIn)
    }

    /** The bytes in the receive ring, oldest first. */
    ghost function RxRing(): seq<byte>
      requires Shape()
      reads this, rx_buf
    {
      Live(rx_buf[..], rxOut, rxIn)
    }

    /** Everything that the driver has ever taken from the device. */
    ghost function Received(): seq<byte>
      requires Shape()
      reads this, rx_buf
    {
      delivered + RxRing()
    }

    ghost predicate RxFull()
      requires Shape()
      reads this
    {
      Used(rxOut, rxIn) == BUF_LEN - 1
    }

    /** Nothing is lost, duplicated or reordered in either direction. */
    ghost predicate Conserved()
      requires Shape()
      reads this, tx_buf, rx_buf
    {
      && hostReceived + txFifo + TxRing() == accepted
      && delivered + RxRing() + rxFifo == hostSent
    }

    /** The driver's copy of the enables is the device's, waiting output always
        has an interrupt to move it, and the receive interrupt is off only while
        the ring is full; or the thread is on its way to enable them. */
    ghost predicate Awake()
      requires Shape()
      reads this
    {
      && irqEnable == control
      && (txIn != txOut ==> control.we || owesWe)
      && (!control.re ==> RxFull() || owesRe)
    }

    ghost predicate Valid()
      reads this, tx_buf, rx_buf
    {
      Shape() && Conserved() && Awake()
    }

    /** The device asks for a byte to be taken. */
    predicate RxPending()
      reads this
    {
      control.re && raised.re && rxFifo != []
    }

    /** The device asks for bytes to be sent. */
    predicate TxPending()
      reads this
    {
      control.we && raised.we && |txFifo| < WRITE_DEPTH
    }

    /** What the interrupt routine still has to do before it can return, if the
        hardware stays quiet. */
    ghost function Work(): nat
      requires Shape()
      reads this
    {
      |rxFifo| + Used(txOut, txIn) + (if control.re then 1 else 0) + (if control.we then 1 else 0)
    }

    constructor (timeout: nat, activity: nat, alone: bool)
      requires timeout > 0
      ensures Valid() && fresh(tx_buf) && fresh(rx_buf)
      ensures control == Enables(true, false) && !owesWe && !owesRe
      ensures accepted == [] && delivered == [] && this.activity == activity && this.timeout == timeout && this.alone == alone
    {
      tx_buf := new byte[BUF_LEN];
      rx_buf := new byte[BUF_LEN];
      txIn, txOut, rxIn, rxOut := 0, 0, 0, 0;
      irqEnable, control := Enables(true, false), Enables(true, false);
      hostInactive, this.timeout, hostActive := 0, timeout, false;
      rxFifo, txFifo, raised := [], [], Enables(false, false);
      this.activity := activity;
      hostSent, hostReceived, accepted, delivered := [], [], [], [];
      owesWe, owesRe := false, false;
      silences, this.alone := 0, alone;
    }

    // ---------------------------------------------------------------- hardware

    /** The host puts a byte into the receive FIFO. */
    method HostSends(b: byte)
      requires Valid() && |rxFifo| < READ_DEPTH
      modifies `rxFifo, `hostSent
      ensures Valid() && rxFifo == old(rxFifo) + [b]
    {
      assert delivered + RxRing() + (rxFifo + [b]) == (delivered + RxRing() + rxFifo) + [b];
      rxFifo, hostSent := rxFifo + [b], hostSent + [b];
    }

    /** The host takes a byte out of the transmit FIFO. */
    method HostTakes()
      requires Valid() && txFifo != []
      modifies `txFifo, `hostReceived
      ensures Valid() && txFifo == old(txFifo)[1..]
    {
      Shift(hostReceived, txFifo, TxRing());
      hostReceived, txFifo := hostReceived + [txFifo[0]], txFifo[1..];
    }

    /** Any finite amount of traffic on the JTAG link: the host sends a byte,
        takes a byte, or shows that it is alive, and the device comes to have reasons for an
        interrupt. */
    method Hardware()
      requires Valid()
      modifies `rxFifo, `txFifo, `hostActive, `raised, `activity, `hostSent, `hostReceived
      ensures Valid()
      ensures old(rxFifo) <= rxFifo && |txFifo| <= |old(txFifo)|
      ensures activity <= old(activity)
      ensures activity == old(activity) ==> rxFifo == old(rxFifo) && txFifo == old(txFifo) && raised == old(raised)
    {
      hide Live;
      var more: bool := *;
      while activity > 0 && more
        invariant Valid()
        invariant old(rxFifo) <= rxFifo && |txFifo| <= |old(txFifo)|
        invariant activity <= old(activity)
        invariant activity == old(activity) ==> rxFifo == old(rxFifo) && txFifo == old(txFifo) && raised == old(raised)
        decreases activity
      {
        activity := activity - 1;
        var event: int := *;
        if event == 0 && |rxFifo| < READ_DEPTH {
          var b: byte := *;
          HostSends(b);
        } else if event == 1 && txFifo != [] {
          HostTakes();
        } else if event == 2 {
          raised := *;
        } else {
          hostActive := true;
        }
        more := *;
      }
    }

    /** A read of the control register. */
    method ReadControl() returns (c: Control)
      requires Shape()
      ensures (c.ri <==> RxPending()) && (c.wi <==> TxPending())
      ensures c.wspace == WRITE_DEPTH - |txFifo|
    {
      c := Control(RxPending(), TxPending(), WRITE_DEPTH - |txFifo|);
    }

    // ------------------------------------------------------- interrupt routine

    /** Read the data register and, if it held a byte, store it in the ring. */
    method ReceiveByte() returns (data: Data)
      requires Valid() && !RxFull()
      modifies `rxIn, `rxFifo, rx_buf
      ensures Valid()
      ensures old(RxRing()) <= RxRing()
      ensures data.valid == (old(rxFifo) != []) && data.avail == (rxFifo != [])
      ensures rxFifo == if data.valid then old(rxFifo)[1..] else []
    {
      hide Live;
      if rxFifo == [] {
        return Data(false, false, 0);
      }
      data := Data(true, |rxFifo| > 1, rxFifo[0]);
      PushOne(rx_buf[..], rxOut, rxIn, data.value);
      Regroup(delivered, RxRing(), rxFifo);
      rxFifo := rxFifo[1..];
      ghost var was := rx_buf[..];
      rx_buf[rxIn] := data.value;
      assert rx_buf[..] == was[rxIn := data.value];
      rxIn := Slot(rxIn, 1);
    }

    /** Turn the receive interrupt off, the ring being full. */
    method DisableReceive()
      requires Valid() && RxFull()
      modifies `irqEnable, `control
      ensures Valid() && control == old(control).(re := false)
    {
      irqEnable := irqEnable.(re := false);
      control := irqEnable;
    }

    /** Turn the transmit interrupt off, the ring being empty. */
    method DisableTransmit()
      requires Valid() && txIn == txOut
      modifies `irqEnable, `control
      ensures Valid() && control == old(control).(we := false)
    {
      irqEnable := irqEnable.(we := false);
      control := irqEnable;
    }

    /** Move bytes from the device into the receive ring.  If the device still
        holds bytes when the ring is full, turn the receive interrupt off. */
    method ServiceReceive()
      requires Valid() && control.re && rxFifo != []
      modifies `rxIn, `irqEnable, `control, `rxFifo, `txFifo, `hostActive, `raised, `activity, `hostSent, `hostReceived, rx_buf
      ensures Valid()
      ensures old(RxRing()) <= RxRing()
      ensures control.we == old(control.we)
      ensures |txFifo| <= |old(txFifo)|
      ensures activity <= old(activity)
      ensures activity == old(activity) ==> Work() < old(Work()) && raised == old(raised)
    {
      hide Live, Conserved, Awake;
      var avail := true;
      while true
        invariant Valid() && control == old(control)
        invariant old(RxRing()) <= RxRing()
        invariant |txFifo| <= |old(txFifo)| && activity <= old(activity)
        invariant activity == old(activity) ==> |rxFifo| <= |old(rxFifo)| && raised == old(raised)
        invariant activity == old(activity) && |rxFifo| == |old(rxFifo)| ==> avail && rxFifo != []
        decreases activity, |rxFifo|
      {
        var next := Slot(rxIn, 1);
        if next == rxOut {
          break;
        }
        Hardware();
        var data := ReceiveByte();
        avail := data.avail;
        if !data.valid {
          break;
        }
      }
      if avail {
        DisableReceive();
      }
    }

    /** Write the oldest byte of the transmit ring to the data register. */
    method TransmitByte()
      requires Valid() && txIn != txOut && |txFifo| < WRITE_DEPTH
      modifies `txOut, `txFifo
      ensures Valid()
      ensures txFifo == old(txFifo) + [old(TxRing())[0]]
      ensures Used(txOut, txIn) == old(Used(txOut, txIn)) - 1
    {
      hide Live;
      PopOne(tx_buf[..], txOut, txIn);
      Regroup(hostReceived, txFifo, TxRing());
      txFifo := txFifo + [tx_buf[txOut]];
      txOut := Slot(txOut, 1);
    }

    /** Move up to `wspace` bytes from the transmit ring into the device.  If there
        is still room then the ring is empty: turn the transmit interrupt off. */
    method ServiceTransmit(wspace: nat)
      requires Valid() && wspace > 0 && |txFifo| + wspace <= WRITE_DEPTH
      modifies `txOut, `irqEnable, `control, `rxFifo, `txFifo, `hostActive, `raised, `activity, `hostSent, `hostReceived
      ensures Valid()
      ensures Used(txOut, txIn) <= old(Used(txOut, txIn))
      ensures activity <= old(activity)
      ensures activity == old(activity) ==> Work() <= old(Work())
      ensures activity == old(activity) && old(control.we) ==> Work() < old(Work())
      ensures activity == old(activity) ==> rxFifo == old(rxFifo) && raised == old(raised)
    {
      hide Live, Conserved, Awake;
      var space := wspace;
      while space > 0 && txOut != txIn
        invariant Valid() && control == old(control)
        invariant |txFifo| + space <= WRITE_DEPTH
        invariant Used(txOut, txIn) <= old(Used(txOut, txIn))
        invariant space < wspace ==> Used(txOut, txIn) < old(Used(txOut, txIn))
        invariant activity <= old(activity)
        invariant activity == old(activity) ==> rxFifo == old(rxFifo) && raised == old(raised)
        decreases Used(txOut, txIn)
      {
        Hardware();
        TransmitByte();
        space := space - 1;
      }
      if space > 0 {
        DisableTransmit();
      }
    }

    /** The interrupt routine.  It returns only once nothing is pending.  And it ends: every
        round either uses up outside activity or gets some of its own work done; so with
        the hardware quiet, whatever was pending has been dealt with until the FIFO is
        empty, or the ring full, or there is nothing to send or no room for it. */
    method Irq()
      requires Valid()
      modifies `rxIn, `txOut, `irqEnable, `control, `rxFifo, `txFifo, `hostActive, `raised, `activity, `hostSent,
               `hostReceived, rx_buf
      ensures Valid()
      ensures old(RxRing()) <= RxRing()
      ensures Used(txOut, txIn) <= old(Used(txOut, txIn))
      ensures activity <= old(activity)
      ensures !RxPending() && !TxPending()
      ensures activity == old(activity) ==> raised == old(raised)
      ensures activity == old(activity) && old(RxPending() || TxPending()) ==> Work() < old(Work())
      ensures activity == old(activity) && old(RxPending()) ==> rxFifo == [] || RxFull() || owesRe
      ensures activity == old(activity) && old(TxPending()) ==> txIn == txOut || |txFifo| == WRITE_DEPTH || owesWe
    {
      hide Live, Conserved, Awake;
      while true
        invariant Valid()
        invariant old(RxRing()) <= RxRing()
        invariant Used(txOut, txIn) <= old(Used(txOut, txIn))
        invariant activity <= old(activity)
        invariant activity == old(activity) ==> raised == old(raised)
        invariant activity == old(activity) ==>
                    Work() < old(Work()) || (RxPending() == old(RxPending()) && TxPending() == old(TxPending()))
        decreases activity, Work()
      {
        Hardware();
        var c := ReadControl();
        if !c.ri && !c.wi {
          break;
        }
        if c.ri {
          ServiceReceive();
        }
        if c.wi {
          ServiceTransmit(c.wspace);
        }
      }
      Flows();
    }

    /** The alarm that runs once a second: count the seconds since the host last
        showed that it is alive. */
    method Timeout()
      requires Valid()
      modifies `control, `hostActive, `hostInactive, `silences
      ensures Valid() && control == old(control)
      ensures hostInactive == if old(hostActive) then 0
                              else if old(hostInactive) < INT_MAX - 2 then old(hostInactive) + 1
                              else old(hostInactive)
      ensures !hostActive
      ensures silences >= old(silences)
      ensures hostInactive >= timeout && silences == old(silences) ==> old(hostInactive) >= timeout
    {
      if hostActive {
        control := irqEnable;
        hostActive := false;
        hostInactive := 0;
      } else if hostInactive < INT_MAX - 2 {
        hostInactive := hostInactive + 1;
        if hostInactive >= timeout {
          silences := silences + 1;
        }
      }
    }

    // ------------------------------------------------------------ thread level

    /** One outside event less to come. */
    method Elapse()
      requires Valid() && activity > 0
      modifies `activity
      ensures Valid() && activity == old(activity) - 1
      ensures RxRing() == old(RxRing())
    {
      activity := activity - 1;
    }

    /** One thing that can happen while a thread is preempted. */
    method Disturb()
      requires Valid()
      modifies `rxIn, `txOut, `irqEnable, `control, `rxFifo, `txFifo, `hostActive, `raised, `hostInactive, `activity,
               `hostSent, `hostReceived, `silences, rx_buf
      ensures Valid()
      ensures old(RxRing()) <= RxRing() && old(Received()) <= Received()
      ensures Used(txOut, txIn) <= old(Used(txOut, txIn))
      ensures activity <= old(activity)
      ensures silences >= old(silences)
      ensures hostInactive >= timeout && silences == old(silences) ==> old(hostInactive) >= timeout
    {
      hide Live, Used, Conserved, Awake;
      var event: int := *;
      if event == 0 {
        Irq();
      } else if event == 1 {
        Timeout();
      } else {
        Hardware();
      }
    }

    /** One access of a reading thread to shared state: it gives slots back, or turns
        the receive interrupt on. */
    method ReaderStep()
      requires Valid()
      modifies `rxOut, `delivered, `owesRe, `irqEnable, `control
      ensures Valid() && Received() == old(Received())
    {
      hide Live;
      var event: int, n: nat := *, *;
      if event == 0 && 0 < n <= Used(rxOut, rxIn) && rxOut + n <= BUF_LEN {
        Release(n);
      } else if event == 1 {
        EnableReceive();
      }
    }

    /** One access of a writing thread to shared state: it fills a free slot, publishes
        slots, or turns the transmit interrupt on. */
    method WriterStep()
      requires Valid()
      modifies tx_buf, `txIn, `accepted, `owesWe, `irqEnable, `control
      ensures Valid()
    {
      hide Live;
      var event: int, n: nat, b: byte := *, *, *;
      if event == 0 && n < BUF_LEN && Free(txOut, txIn, n) {
        StoreByte(n, b);
      } else if event == 1 && 0 < n && txIn + n <= BUF_LEN && Used(txOut, txIn) + n < BUF_LEN {
        Publish(tx_buf[txIn..txIn + n], txIn);
      } else if event == 2 {
        EnableTransmit();
      }
    }

    /** A point at which the writing thread may be preempted: hardware, interrupts,
        alarms and the steps of a reading thread happen in any order and number.  None
        of it touches what the writer owns: txIn and the transmit buffer. */
    method PreemptWriter()
      requires Valid()
      modifies `rxIn, `txOut, `irqEnable, `control, `rxFifo, `txFifo, `hostActive, `raised, `hostInactive, `activity,
               `hostSent, `hostReceived, `silences, rx_buf, `rxOut, `delivered, `owesRe
      ensures Valid()
      ensures old(Received()) <= Received()
      ensures Used(txOut, txIn) <= old(Used(txOut, txIn))
      ensures activity <= old(activity)
      ensures activity == old(activity) ==>
                txOut == old(txOut) && rxIn == old(rxIn) && hostInactive == old(hostInactive)
      ensures alone ==> delivered == old(delivered) && owesRe == old(owesRe)
    {
      hide Live, Used, Conserved, Awake;
      ghost var taken := Received();
      ghost var out, inn, seconds := txOut, rxIn, hostInactive;
      var more: bool := *;
      while activity > 0 && more
        invariant Valid()
        invariant taken <= Received()
        invariant Used(txOut, txIn) <= Used(out, txIn)
        invariant activity <= old(activity)
        invariant activity == old(activity) ==> txOut == out && rxIn == inn && hostInactive == seconds
        invariant alone ==> delivered == old(delivered) && owesRe == old(owesRe)
        decreases activity
      {
        Elapse();
        var turn: bool := *;
        if turn && !alone {
          ReaderStep();
        } else {
          Disturb();
        }
        more := *;
      }
    }

    /** A point at which the reading thread may be preempted, by a writing thread among
        others.  None of it touches what the reader owns: rxOut and the waiting bytes. */
    method PreemptReader()
      requires Valid()
      modifies `rxIn, `txOut, `irqEnable, `control, `rxFifo, `txFifo, `hostActive, `raised, `hostInactive, `activity,
               `hostSent, `hostReceived, `silences, rx_buf, tx_buf, `txIn, `accepted, `owesWe
      ensures Valid()
      ensures old(RxRing()) <= RxRing()
      ensures activity <= old(activity)
      ensures activity == old(activity) ==>
                txOut == old(txOut) && rxIn == old(rxIn) && hostInactive == old(hostInactive)
      ensures alone ==> accepted == old(accepted) && owesWe == old(owesWe)
      ensures silences >= old(silences)
      ensures hostInactive >= timeout && silences == old(silences) ==> old(hostInactive) >= timeout
    {
      hide Live, Used, Conserved, Awake;
      ghost var ring := RxRing();
      ghost var out, inn, seconds := txOut, rxIn, hostInactive;
      var more: bool := *;
      while activity > 0 && more
        invariant Valid()
        invariant ring <= RxRing()
        invariant activity <= old(activity)
        invariant activity == old(activity) ==> txOut == out && rxIn == inn && hostInactive == seconds
        invariant alone ==> accepted == old(accepted) && owesWe == old(owesWe)
        invariant silences >= old(silences)
        invariant hostInactive >= timeout && silences == old(silences) ==> old(hostInactive) >= timeout
        decreases activity
      {
        Elapse();
        var turn: bool := *;
        if turn && !alone {
          WriterStep();
        } else {
          Disturb();
        }
        more := *;
      }
    }

    /** Copy a chunk to the free slots after the producer's index, byte by byte,
        with interrupts still able to run. */
    method CopyIn(chunk: seq<byte>, inn: nat)
      requires Valid() && inn == txIn
      requires inn + |chunk| <= BUF_LEN && Used(txOut, txIn) + |chunk| < BUF_LEN
      modifies `rxIn, `txOut, `irqEnable, `control, `rxFifo, `txFifo, `hostActive, `raised, `hostInactive, `activity,
               `hostSent, `hostReceived, `silences, rx_buf, `rxOut, `delivered, `owesRe, tx_buf
      ensures Valid()
      ensures tx_buf[inn..inn + |chunk|] == chunk
      ensures old(Received()) <= Received()
      ensures Used(txOut, txIn) <= old(Used(txOut, txIn))
      ensures activity <= old(activity)
      ensures alone ==> delivered == old(delivered) && owesRe == old(owesRe)
    {
      hide Live, Conserved, Awake;
      ghost var taken := Received();
      for k := 0 to |chunk|
        invariant Valid()
        invariant alone ==> delivered == old(delivered) && owesRe == old(owesRe)
        invariant taken <= Received()
        invariant tx_buf[inn..inn + k] == chunk[..k]
        invariant Used(txOut, txIn) <= old(Used(txOut, txIn))
        invariant activity <= old(activity)
      {
        StoreByte(inn + k, chunk[k]);
        assert tx_buf[inn..inn + k + 1] == tx_buf[inn..inn + k] + [tx_buf[inn + k]];
        PreemptWriter();
      }
    }

    /** Store one byte in a slot that holds no waiting output. */
    method StoreByte(slot: nat, b: byte)
      requires Valid() && slot < BUF_LEN && Free(txOut, txIn, slot)
      modifies tx_buf
      ensures Valid()
      ensures tx_buf[..] == old(tx_buf[..])[slot := b]
    {
      WriteFree(tx_buf[..], txOut, txIn, slot, b);
      ghost var was := tx_buf[..];
      tx_buf[slot] := b;
      assert tx_buf[..] == was[slot := b];
    }

    /** Advance the producer's index over a chunk that is already in place. */
    method Publish(chunk: seq<byte>, inn: nat)
      requires Valid() && inn == txIn && chunk != []
      requires inn + |chunk| <= BUF_LEN && Used(txOut, txIn) + |chunk| < BUF_LEN
      requires tx_buf[inn..inn + |chunk|] == chunk
      modifies `txIn, `accepted, `owesWe
      ensures Valid() && owesWe
      ensures accepted == old(accepted) + chunk
    {
      hide Live;
      PublishChunk(tx_buf[..], txOut, txIn, |chunk|);
      assert tx_buf[..][inn..inn + |chunk|] == chunk;
      assert hostReceived + txFifo + (TxRing() + chunk) == hostReceived + txFifo + TxRing() + chunk;
      txIn := Slot(inn, |chunk|);
      accepted, owesWe := accepted + chunk, true;
    }

    /** With interrupts disabled: turn the transmit interrupt on. */
    method EnableTransmit()
      requires Valid()
      modifies `irqEnable, `control, `owesWe
      ensures Valid() && !owesWe && control == old(control).(we := true)
    {
      irqEnable := irqEnable.(we := true);
      control := irqEnable;
      owesWe := false;
    }

    /** Copy one chunk into the ring and publish it. */
    method PutChunk(chunk: seq<byte>, inn: nat)
      requires Valid() && inn == txIn && chunk != []
      requires inn + |chunk| <= BUF_LEN && Used(txOut, txIn) + |chunk| < BUF_LEN
      modifies `rxIn, `txOut, `irqEnable, `control, `rxFifo, `txFifo, `hostActive, `raised, `hostInactive, `activity,
               `hostSent, `hostReceived, `silences, rx_buf, `rxOut, `delivered, `owesRe, tx_buf, `txIn,
               `accepted, `owesWe
      ensures Valid()
      ensures accepted == old(accepted) + chunk
      ensures old(Received()) <= Received()
      ensures activity <= old(activity)
      ensures alone ==> delivered == old(delivered) && owesRe == old(owesRe)
    {
      PreemptWriter();
      CopyIn(chunk, inn);
      Publish(chunk, inn);
      PreemptWriter();
    }

    /** Put as much of `data` as fits into the transmit ring, in contiguous
        chunks.  It stops short only if the ring was full when the consumer's index
        was last read, as `out`. */
    method FillRing(data: seq<byte>) returns (moved: nat, out: nat)
      requires Valid()
      modifies `rxIn, `txOut, `irqEnable, `control, `rxFifo, `txFifo, `hostActive, `raised, `hostInactive, `activity,
               `hostSent, `hostReceived, `silences, rx_buf, `rxOut, `delivered, `owesRe, tx_buf, `txIn,
               `accepted, `owesWe
      ensures Valid()
      ensures moved <= |data| && accepted == old(accepted) + data[..moved]
      ensures old(Received()) <= Received()
      ensures activity <= old(activity)
      ensures moved < |data| ==> out < BUF_LEN && Used(out, txIn) == BUF_LEN - 1
      ensures moved < |data| && activity == old(activity) ==> txOut == out
      ensures alone ==> delivered == old(delivered) && owesRe == old(owesRe)
    {
      hide Live, Used, Conserved, Awake;
      ghost var taken := Received();
      moved, out := 0, 0;
      assert data[..0] == [];
      while moved < |data|
        invariant Valid()
        invariant alone ==> delivered == old(delivered) && owesRe == old(owesRe)
        invariant moved <= |data| && accepted == old(accepted) + data[..moved]
        invariant taken <= Received()
        invariant activity <= old(activity)
        decreases |data| - moved
      {
        var inn := txIn;
        PreemptWriter();
        out := txOut;
        var n := Room(out, inn);
        if n == 0 {
          break;
        }
        if n > |data| - moved {
          n := |data| - moved;
        }
        var chunk := data[moved..moved + n];
        PutChunk(chunk, inn);
        assert data[..moved + n] == data[..moved] + chunk;
        moved := moved + n;
      }
    }

    /** One round of a write: fill the ring, then make sure that the transmit
        interrupt is on. */
    method FillAndKick(data: seq<byte>) returns (moved: nat, out: nat)
      requires Valid()
      modifies `rxIn, `txOut, `irqEnable, `control, `rxFifo, `txFifo, `hostActive, `raised, `hostInactive, `activity,
               `hostSent, `hostReceived, `silences, rx_buf, `rxOut, `delivered, `owesRe, tx_buf, `txIn,
               `accepted, `owesWe
      ensures Valid() && !owesWe
      ensures moved <= |data| && accepted == old(accepted) + data[..moved]
      ensures old(Received()) <= Received() && activity <= old(activity)
      ensures moved < |data| ==> out < BUF_LEN && Used(out, txIn) == BUF_LEN - 1
      ensures moved < |data| && activity == old(activity) ==> txOut == out
      ensures alone ==> delivered == old(delivered) && owesRe == old(owesRe)
    {
      hide Live, Conserved, Awake;
      moved, out := FillRing(data);
      PreemptWriter();
      EnableTransmit();
      PreemptWriter();
    }

    /** One round of a write whose first `ptr` bytes have been taken. */
    method Round(data: seq<byte>, ptr: nat, ghost before: seq<byte>) returns (next: nat, out: nat)
      requires Valid() && ptr <= |data| && accepted == before + data[..ptr]
      modifies `rxIn, `txOut, `irqEnable, `control, `rxFifo, `txFifo, `hostActive, `raised, `hostInactive, `activity,
               `hostSent, `hostReceived, `silences, rx_buf, `rxOut, `delivered, `owesRe, tx_buf, `txIn,
               `accepted, `owesWe
      ensures Valid() && !owesWe
      ensures ptr <= next <= |data| && accepted == before + data[..next]
      ensures old(Received()) <= Received() && activity <= old(activity)
      ensures next < |data| ==> out < BUF_LEN && Used(out, txIn) == BUF_LEN - 1
      ensures next < |data| && activity == old(activity) ==> txOut == out
      ensures alone ==> delivered == old(delivered) && owesRe == old(owesRe)
    {
      hide Live, Used, Conserved, Awake;
      var moved;
      moved, out := FillAndKick(data[ptr..]);
      Advance(before, data, ptr, moved);
      next := ptr + moved;
    }

    /** The loop of a write: fill, kick, and wait for room until everything is taken, the
        caller does not want to wait, or the host is quiet. */
    method Offer(data: seq<byte>, nonblock: bool) returns (ptr: nat, quiet: bool)
      requires Valid() && !owesWe
      modifies `rxIn, `txOut, `irqEnable, `control, `rxFifo, `txFifo, `hostActive, `raised, `hostInactive, `activity,
               `hostSent, `hostReceived, `silences, rx_buf, `rxOut, `delivered, `owesRe, tx_buf, `txIn,
               `accepted, `owesWe
      ensures Valid() && !owesWe
      ensures old(Received()) <= Received() && activity <= old(activity)
      ensures alone ==> delivered == old(delivered) && owesRe == old(owesRe)
      ensures ptr <= |data| && accepted == old(accepted) + data[..ptr]
      ensures ptr < |data| && !quiet ==> nonblock || hostInactive > 0
      ensures ptr < |data| && !quiet && activity == old(activity) ==>
                Used(txOut, txIn) == BUF_LEN - 1 && (nonblock || hostInactive >= timeout)
      ensures quiet ==> ptr < |data| && activity == 0 && !nonblock
    {
      hide Live, Used, Conserved, Awake;
      ghost var taken := Received();
      ptr, quiet := 0, false;
      assert data[..0] == [];
      while true
        invariant Valid() && !owesWe && !quiet
        invariant ptr <= |data| && accepted == old(accepted) + data[..ptr]
        invariant taken <= Received() && activity <= old(activity)
        invariant alone ==> delivered == old(delivered) && owesRe == old(owesRe)
        decreases |data| - ptr, activity
      {
        var out;
        ptr, out := Round(data, ptr, old(accepted));
        if ptr < |data| {
          if nonblock {
            break;
          }
          var silent;
          quiet, silent := AwaitRoom(out);
          if quiet || silent {
            break;
          }
        }
        if ptr == |data| {
          break;
        }
      }
    }

    /** The wait of a blocking write, and the test after it: `silent` when the host has
        been inactive for a second or more. */
    method AwaitRoom(out: nat) returns (quiet: bool, silent: bool)
      requires Valid()
      modifies `rxIn, `txOut, `irqEnable, `control, `rxFifo, `txFifo, `hostActive, `raised, `hostInactive, `activity,
               `hostSent, `hostReceived, `silences, rx_buf, `rxOut, `delivered, `owesRe
      ensures Valid()
      ensures old(Received()) <= Received() && activity <= old(activity)
      ensures quiet ==> activity == 0
      ensures silent ==> hostInactive > 0
      ensures activity == old(activity) ==> txOut == old(txOut)
      ensures !quiet && activity == old(activity) && out == txOut ==> hostInactive >= timeout
      ensures !quiet && !silent ==> hostInactive == 0
      ensures alone ==> delivered == old(delivered) && owesRe == old(owesRe)
    {
      hide Live, Used, Conserved, Awake;
      quiet := AwaitTransmit(out);
      silent := false;
      if !quiet {
        PreemptWriter();
        silent := hostInactive != 0;
      }
    }

    /** Write `data`.  A positive result r means that exactly the first r bytes
        were taken; a negative one that none was.  Less than everything is taken
        only from a non-blocking caller or after the host has gone quiet; if nothing else
        was going on, only because the ring is full and the wait for room is refused or
        has been given up. */
    method Write(data: seq<byte>, nonblock: bool) returns (r: Outcome)
      requires Valid() && !owesWe
      modifies `rxIn, `txOut, `irqEnable, `control, `rxFifo, `txFifo, `hostActive, `raised, `hostInactive, `activity,
               `hostSent, `hostReceived, `silences, rx_buf, `rxOut, `delivered, `owesRe, tx_buf, `txIn,
               `accepted, `owesWe
      ensures Valid() && !owesWe
      ensures txIn != txOut ==> control.we
      ensures old(Received()) <= Received() && activity <= old(activity)
      ensures r.Returned? && r.value > 0 ==> r.value <= |data| && accepted == old(accepted) + data[..r.value]
      ensures r.Returned? && r.value <= 0 ==>
                accepted == old(accepted) && r.value == if nonblock then -EWOULDBLOCK else -EIO
      ensures r.Returned? && data != [] && r.value < |data| ==> nonblock || hostInactive > 0
      ensures r.Returned? && Moved(r) < |data| && activity == old(activity) ==>
                Used(txOut, txIn) == BUF_LEN - 1 && (nonblock || hostInactive >= timeout)
      ensures r.Waiting? ==>
                r.moved < |data| && accepted == old(accepted) + data[..r.moved] && activity == 0 && !nonblock
      ensures alone ==> delivered == old(delivered) && owesRe == old(owesRe)
    {
      hide Live, Used, Conserved, Awake;
      var ptr, quiet := Offer(data, nonblock);
      Flows();
      assert data[..|data|] == data && data[..0] == [];
      if quiet {
        return Waiting(ptr);
      }
      if ptr != 0 {
        return Returned(ptr);
      } else if nonblock {
        return Returned(-EWOULDBLOCK);
      } else {
        return Returned(-EIO);
      }
    }

    /** Spin until the interrupt routine has moved the consumer's index or the host
        is judged inactive.  `quiet` means that the run ended first. */
    method AwaitTransmit(out: nat) returns (quiet: bool)
      requires Valid()
      modifies `rxIn, `txOut, `irqEnable, `control, `rxFifo, `txFifo, `hostActive, `raised, `hostInactive, `activity,
               `hostSent, `hostReceived, `silences, rx_buf, `rxOut, `delivered, `owesRe
      ensures Valid()
      ensures old(Received()) <= Received() && activity <= old(activity)
      ensures quiet ==> activity == 0
      ensures !quiet ==> out != txOut || hostInactive >= timeout
      ensures activity == old(activity) ==> txOut == old(txOut)
      ensures alone ==> delivered == old(delivered) && owesRe == old(owesRe)
    {
      hide Live, Used, Conserved, Awake;
      ghost var taken := Received();
      while true
        invariant Valid()
        invariant taken <= Received() && activity <= old(activity)
        invariant activity == old(activity) ==> txOut == old(txOut)
        invariant alone ==> delivered == old(delivered) && owesRe == old(owesRe)
        decreases activity
      {
        if out != txOut {
          return false;
        }
        PreemptWriter();
        if hostInactive >= timeout {
          return false;
        }
        if activity == 0 {
          return true;
        }
        Elapse();
        PreemptWriter();
      }
    }

    // -------------------------------------------------------------------- read

    /** Copy the n oldest bytes of the receive ring to the caller's buffer, byte by
        byte, with interrupts still able to run. */
    method CopyOut(buffer: array<byte>, ptr: nat, n: nat)
      requires Valid() && buffer != tx_buf && buffer != rx_buf
      requires rxOut + n <= BUF_LEN && n <= Used(rxOut, rxIn) && ptr + n <= buffer.Length
      modifies `rxIn, `txOut, `irqEnable, `control, `rxFifo, `txFifo, `hostActive, `raised, `hostInactive, `activity,
               `hostSent, `hostReceived, `silences, rx_buf, tx_buf, `txIn, `accepted, `owesWe, buffer
      ensures Valid()
      ensures old(RxRing()) <= RxRing() && activity <= old(activity)
      ensures activity == old(activity) ==> rxIn == old(rxIn)
      ensures n <= |old(RxRing())| && buffer[ptr..ptr + n] == old(RxRing())[..n]
      ensures buffer[..ptr] == old(buffer[..ptr]) && buffer[ptr + n..] == old(buffer[ptr + n..])
      ensures alone ==> accepted == old(accepted) && owesWe == old(owesWe)
      ensures silences >= old(silences)
      ensures hostInactive >= timeout && silences == old(silences) ==> old(hostInactive) >= timeout
    {
      hide Live, Conserved, Awake;
      ghost var ring := RxRing();
      assert |ring| == Used(rxOut, rxIn);
      for k := 0 to n
        invariant Valid()
        invariant alone ==> accepted == old(accepted) && owesWe == old(owesWe)
        invariant silences >= old(silences)
        invariant hostInactive >= timeout && silences == old(silences) ==> old(hostInactive) >= timeout
        invariant ring <= RxRing() && activity <= old(activity)
        invariant activity == old(activity) ==> rxIn == old(rxIn)
        invariant buffer[ptr..ptr + k] == ring[..k]
        invariant buffer[..ptr] == old(buffer[..ptr]) && buffer[ptr + k..] == old(buffer[ptr + k..])
      {
        assert rx_buf[rxOut + k] == ring[k] by {
          assert RxRing()[k] == ring[k];
        }
        buffer[ptr + k] := rx_buf[rxOut + k];
        assert buffer[ptr..ptr + k + 1] == buffer[ptr..ptr + k] + [ring[k]];
        PreemptReader();
      }
    }

    /** Advance the consumer's index over the n oldest bytes. */
    method Release(n: nat)
      requires Valid() && 0 < n && rxOut + n <= BUF_LEN && n <= |RxRing()|
      modifies `rxOut, `delivered, `owesRe
      ensures Valid() && owesRe
      ensures delivered == old(delivered) + old(RxRing())[..n]
    {
      hide Live;
      ReleaseChunk(rx_buf[..], rxOut, rxIn, n);
      ghost var chunk := RxRing()[..n];
      assert delivered + RxRing() + rxFifo == (delivered + chunk) + RxRing()[n..] + rxFifo;
      rxOut := Slot(rxOut, n);
      delivered, owesRe := delivered + chunk, true;
    }

    /** With interrupts disabled: turn the receive interrupt on. */
    method EnableReceive()
      requires Valid()
      modifies `irqEnable, `control, `owesRe
      ensures Valid() && !owesRe && control == old(control).(re := true)
    {
      irqEnable := irqEnable.(re := true);
      control := irqEnable;
      owesRe := false;
    }

    /** Move one contiguous chunk from the receive ring to the caller. */
    method GetChunk(buffer: array<byte>, ptr: nat, n: nat)
      requires Valid() && buffer != tx_buf && buffer != rx_buf
      requires 0 < n && rxOut + n <= BUF_LEN && n <= Used(rxOut, rxIn) && ptr + n <= buffer.Length
      modifies `rxIn, `txOut, `irqEnable, `control, `rxFifo, `txFifo, `hostActive, `raised, `hostInactive, `activity,
               `hostSent, `hostReceived, `silences, rx_buf, tx_buf, `txIn, `accepted, `owesWe, buffer, `rxOut,
               `delivered, `owesRe
      ensures Valid() && owesRe && activity <= old(activity)
      ensures activity == old(activity) ==> rxIn == old(rxIn)
      ensures delivered == old(delivered) + buffer[ptr..ptr + n]
      ensures buffer[..ptr] == old(buffer[..ptr]) && buffer[ptr + n..] == old(buffer[ptr + n..])
      ensures alone ==> accepted == old(accepted) && owesWe == old(owesWe)
      ensures silences >= old(silences)
      ensures hostInactive >= timeout && silences == old(silences) ==> old(hostInactive) >= timeout
    {
      hide Live, Conserved, Awake;
      ghost var ring := RxRing();
      PreemptReader();
      assert ring <= RxRing();
      CopyOut(buffer, ptr, n);
      Release(n);
      PreemptReader();
    }

    /** One chunk more of what a read has delivered. */
    method TakeChunk(buffer: array<byte>, ptr: nat, n: nat, ghost before: seq<byte>, ghost was: seq<byte>)
      requires Valid() && buffer != tx_buf && buffer != rx_buf
      requires 0 < n && rxOut + n <= BUF_LEN && n <= Used(rxOut, rxIn) && ptr + n <= buffer.Length == |was|
      requires delivered == before + buffer[..ptr] && buffer[ptr..] == was[ptr..]
      modifies `rxIn, `txOut, `irqEnable, `control, `rxFifo, `txFifo, `hostActive, `raised, `hostInactive, `activity,
               `hostSent, `hostReceived, `silences, rx_buf, tx_buf, `txIn,
               `accepted, `owesWe, buffer, `rxOut, `delivered, `owesRe
      ensures Valid() && owesRe && activity <= old(activity)
      ensures activity == old(activity) ==> rxIn == old(rxIn)
      ensures delivered == before + buffer[..ptr + n] && buffer[ptr + n..] == was[ptr + n..]
      ensures alone ==> accepted == old(accepted) && owesWe == old(owesWe)
      ensures silences >= old(silences)
      ensures hostInactive >= timeout && silences == old(silences) ==> old(hostInactive) >= timeout
    {
      hide Live, Used, Conserved, Awake;
      ghost var sofar, now := delivered, buffer[..];
      GetChunk(buffer, ptr, n);
      Append(before, sofar, now, buffer[..], ptr, n);
      assert now[ptr + n..] == now[ptr..][n..] && was[ptr + n..] == was[ptr..][n..];
    }

    /** Take as much as is there, in contiguous chunks, up to the size of the
        buffer.  `inn` is the producer's index as last read. */
    method DrainRing(buffer: array<byte>) returns (moved: nat, inn: nat)
      requires Valid() && buffer != tx_buf && buffer != rx_buf && !owesRe && buffer.Length > 0
      modifies `rxIn, `txOut, `irqEnable, `control, `rxFifo, `txFifo, `hostActive, `raised, `hostInactive, `activity,
               `hostSent, `hostReceived, `silences, rx_buf, tx_buf, `txIn, `accepted, `owesWe, buffer, `rxOut,
               `delivered, `owesRe
      ensures Valid() && activity <= old(activity)
      ensures moved <= buffer.Length && delivered == old(delivered) + buffer[..moved]
      ensures buffer[moved..] == old(buffer[moved..])
      ensures owesRe ==> moved > 0
      ensures moved < buffer.Length ==> inn == rxOut
      ensures activity == old(activity) ==> rxIn == inn
      ensures alone ==> accepted == old(accepted) && owesWe == old(owesWe)
      ensures silences >= old(silences)
      ensures hostInactive >= timeout && silences == old(silences) ==> old(hostInactive) >= timeout
    {
      hide Live, Used, Conserved, Awake;
      moved, inn := 0, 0;
      assert buffer[..0] == [] && delivered + [] == delivered;
      while true
        invariant Valid() && activity <= old(activity)
        invariant alone ==> accepted == old(accepted) && owesWe == old(owesWe)
        invariant silences >= old(silences)
        invariant hostInactive >= timeout && silences == old(silences) ==> old(hostInactive) >= timeout
        invariant moved < buffer.Length && delivered == old(delivered) + buffer[..moved]
        invariant buffer[moved..] == old(buffer[moved..])
        invariant owesRe ==> moved > 0
        invariant activity == old(activity) ==> rxIn == old(rxIn)
        decreases buffer.Length - moved
      {
        inn := rxIn;
        var n := Stretch(rxOut, inn);
        if n == 0 {
          break;
        }
        if n > buffer.Length - moved {
          n := buffer.Length - moved;
        }
        TakeChunk(buffer, moved, n, old(delivered), old(buffer[..]));
        moved := moved + n;
        if moved == buffer.Length {
          break;
        }
      }
    }

    /** The loop of a read: drain the ring, and wait for bytes as long as there are none,
        the caller waits, and the host is not judged inactive. */
    method Collect(buffer: array<byte>, nonblock: bool) returns (ptr: nat, quiet: bool)
      requires Valid() && !owesRe && buffer != tx_buf && buffer != rx_buf
      modifies `rxIn, `txOut, `irqEnable, `control, `rxFifo, `txFifo, `hostActive, `raised, `hostInactive, `activity,
               `hostSent, `hostReceived, `silences, rx_buf, tx_buf, `txIn, `accepted, `owesWe, buffer, `rxOut,
               `delivered, `owesRe
      ensures Valid() && activity <= old(activity) && (owesRe ==> ptr > 0)
      ensures ptr <= buffer.Length && delivered == old(delivered) + buffer[..ptr] && buffer[ptr..] == old(buffer[ptr..])
      ensures quiet ==> ptr == 0 && activity == 0 && !nonblock
      ensures ptr == 0 && !quiet && !nonblock && buffer.Length > 0 ==>
                silences > old(silences) || old(hostInactive) >= timeout
      ensures ptr < buffer.Length && !quiet && activity == old(activity) ==> rxIn == rxOut
      ensures alone ==> accepted == old(accepted) && owesWe == old(owesWe)
      ensures silences >= old(silences)
      ensures hostInactive >= timeout && silences == old(silences) ==> old(hostInactive) >= timeout
    {
      hide Live, Used, Conserved, Awake, RxFull;
      ptr, quiet := 0, false;
      assert delivered + buffer[..0] == delivered;
      while buffer.Length > 0
        invariant Valid() && !owesRe && activity <= old(activity) && !quiet
        invariant alone ==> accepted == old(accepted) && owesWe == old(owesWe)
        invariant silences >= old(silences)
        invariant hostInactive >= timeout && silences == old(silences) ==> old(hostInactive) >= timeout
        invariant ptr == 0 && delivered == old(delivered) && buffer[..] == old(buffer[..])
        decreases activity
      {
        var inn;
        ptr, inn := DrainRing(buffer);
        if ptr != 0 {
          assert buffer[ptr..] == old(buffer[..])[ptr..];
          break;
        }
        assert buffer[0..] == buffer[..];
        if nonblock {
          break;
        }
        var silent;
        quiet, silent := AwaitMore(inn);
        if quiet || silent {
          break;
        }
      }
    }

    /** Read into `buffer`.  A positive result r means that the next r bytes of the
        stream are now in the first r places of the buffer; a negative one that the
        stream has not moved.  If nothing else was going on, a short read leaves the
        ring empty.  Either way the receive interrupt is on unless the ring is
        full. */
    method Read(buffer: array<byte>, nonblock: bool) returns (r: Outcome)
      requires Valid() && !owesRe && buffer != tx_buf && buffer != rx_buf
      modifies `rxIn, `txOut, `irqEnable, `control, `rxFifo, `txFifo, `hostActive, `raised, `hostInactive, `activity,
               `hostSent, `hostReceived, `silences, rx_buf, tx_buf, `txIn, `accepted, `owesWe, buffer, `rxOut,
               `delivered, `owesRe
      ensures Valid() && !owesRe
      ensures !control.re ==> RxFull()
      ensures activity <= old(activity)
      ensures r.Returned? && r.value > 0 ==>
                r.value <= buffer.Length && delivered == old(delivered) + buffer[..r.value] && buffer[r.value..] == old(buffer[r.value..])
      ensures r.Returned? && r.value <= 0 ==> r.value == if nonblock then -EWOULDBLOCK else -EIO
      ensures r.Returned? && r.value <= 0 && !nonblock && buffer.Length > 0 ==>
                silences > old(silences) || old(hostInactive) >= timeout
      ensures r.Waiting? || r.value <= 0 ==> delivered == old(delivered) && buffer[..] == old(buffer[..])
      ensures r.Returned? && Moved(r) < buffer.Length && activity == old(activity) ==> rxIn == rxOut
      ensures r.Waiting? ==> r.moved == 0 && activity == 0 && !nonblock
      ensures alone ==> accepted == old(accepted) && owesWe == old(owesWe)
      ensures silences >= old(silences)
      ensures hostInactive >= timeout && silences == old(silences) ==> old(hostInactive) >= timeout
    {
      hide Live, Used, Conserved, Awake, RxFull;
      var ptr, quiet := Collect(buffer, nonblock);
      if ptr != 0 {
        PreemptReader();
        EnableReceive();
      }
      Flows();
      assert buffer[0..] == buffer[..] && old(buffer[0..]) == old(buffer[..]);
      if quiet {
        return Waiting(0);
      } else if ptr != 0 {
        return Returned(ptr);
      } else if nonblock {
        return Returned(-EWOULDBLOCK);
      } else {
        return Returned(-EIO);
      }
    }

    /** The wait of a blocking read, and the test after it: `silent` when there is still
        nothing, which is only when the host was judged inactive. */
    method AwaitMore(inn: nat) returns (quiet: bool, silent: bool)
      requires Valid() && inn == rxOut
      modifies `rxIn, `txOut, `irqEnable, `control, `rxFifo, `txFifo, `hostActive, `raised, `hostInactive, `activity,
               `hostSent, `hostReceived, `silences, rx_buf, tx_buf, `txIn, `accepted, `owesWe
      ensures Valid() && activity <= old(activity)
      ensures quiet ==> activity == 0
      ensures silent ==> silences > old(silences) || old(hostInactive) >= timeout
      ensures activity == old(activity) ==> rxIn == old(rxIn)
      ensures !quiet && !silent && activity == old(activity) ==> inn != rxIn
      ensures alone ==> accepted == old(accepted) && owesWe == old(owesWe)
      ensures silences >= old(silences)
      ensures hostInactive >= timeout && silences == old(silences) ==> old(hostInactive) >= timeout
    {
      hide Live, Used, Conserved, Awake;
      quiet := AwaitReceive(inn);
      silent := false;
      if !quiet {
        EmptyRing();
        PreemptReader();
        EmptyRing();
        silent := inn == rxIn;
      }
    }

    lemma EmptyRing()
      requires Shape()
      ensures RxRing() == [] <==> rxIn == rxOut
    {
    }

    /** Spin until the interrupt routine has stored a byte or the host is judged
        inactive.  `quiet` means that the run ended first. */
    method AwaitReceive(inn: nat) returns (quiet: bool)
      requires Valid()
      modifies `rxIn, `txOut, `irqEnable, `control, `rxFifo, `txFifo, `hostActive, `raised, `hostInactive, `activity,
               `hostSent, `hostReceived, `silences, rx_buf, tx_buf, `txIn, `accepted, `owesWe
      ensures Valid() && activity <= old(activity)
      ensures quiet ==> activity == 0
      ensures !quiet ==> inn != rxIn || hostInactive >= timeout
      ensures activity == old(activity) ==> rxIn == old(rxIn)
      ensures alone ==> accepted == old(accepted) && owesWe == old(owesWe)
      ensures silences >= old(silences)
      ensures hostInactive >= timeout && silences == old(silences) ==> old(hostInactive) >= timeout
      ensures old(RxRing()) <= RxRing()
    {
      hide Live, Used, Conserved, Awake;
      while true
        invariant Valid() && activity <= old(activity)
        invariant old(RxRing()) <= RxRing()
        invariant activity == old(activity) ==> rxIn == old(rxIn)
        invariant alone ==> accepted == old(accepted) && owesWe == old(owesWe)
        invariant silences >= old(silences)
        invariant hostInactive >= timeout && silences == old(silences) ==> old(hostInactive) >= timeout
        decreases activity
      {
        if inn != rxIn {
          return false;
        }
        PreemptReader();
        if hostInactive >= timeout {
          return false;
        }
        if activity == 0 {
          return true;
        }
        Elapse();
        PreemptReader();
      }
    }

    /** Wait for the transmit ring to drain.  Success while the host is active means
        that everything written has reached the device; the refusal to wait, that output
        was waiting and the host is not judged inactive. */
    method Close(nonblock: bool) returns (r: Outcome)
      requires Valid()
      modifies `rxIn, `txOut, `irqEnable, `control, `rxFifo, `txFifo, `hostActive, `raised, `hostInactive, `activity,
               `hostSent, `hostReceived, `silences, rx_buf, `rxOut, `delivered, `owesRe
      ensures Valid() && activity <= old(activity)
      ensures r == Returned(0) || (r == Returned(-EWOULDBLOCK) && nonblock) || (r == Waiting(0) && activity == 0 && !nonblock)
      ensures r == Returned(0) && hostInactive < timeout ==> hostReceived + txFifo == accepted
      ensures r == Returned(-EWOULDBLOCK) ==> old(txOut) != txIn && hostInactive < timeout
      ensures r == Returned(-EWOULDBLOCK) && activity == old(activity) ==> txOut != txIn
      ensures old(Received()) <= Received()
      ensures alone ==> delivered == old(delivered) && owesRe == old(owesRe)
    {
      hide Live, Used, Conserved, Awake;
      ghost var taken := Received();
      while true
        invariant Valid() && activity <= old(activity)
        invariant taken <= Received() && Used(txOut, txIn) <= old(Used(txOut, txIn))
        invariant activity == old(activity) ==> txOut == old(txOut)
        invariant alone ==> delivered == old(delivered) && owesRe == old(owesRe)
        decreases activity
      {
        if txOut == txIn {
          NothingWaits();
          return Returned(0);
        }
        RingsDiffer(txOut, old(txOut));
        PreemptWriter();
        if hostInactive >= timeout {
          return Returned(0);
        }
        if nonblock {
          return Returned(-EWOULDBLOCK);
        }
        if activity == 0 {
          return Waiting(0);
        }
        Elapse();
        PreemptWriter();
      }
    }

    lemma RingsDiffer(out: nat, before: nat)
      requires out < BUF_LEN && before < BUF_LEN && txIn < BUF_LEN && Used(out, txIn) <= Used(before, txIn)
      ensures out != txIn ==> before != txIn
    {
    }

    lemma NothingWaits()
      requires Valid() && txOut == txIn
      ensures hostReceived + txFifo == accepted
    {
    }

    // -------------------------------------------------------------- whole runs

    /** What the invariant says when no thread is about to enable an interrupt. */
    lemma Flows()
      requires Valid()
      ensures hostReceived + txFifo + TxRing() == accepted
      ensures delivered + RxRing() + rxFifo == hostSent
      ensures !owesWe && txIn != txOut ==> control.we
      ensures !owesRe && !control.re ==> RxFull()
    {
    }

    /** Any sequence of calls by the only thread, under any interleaving with hardware,
        interrupts and alarms.  Whatever has not reached the host is still in the device
        or in the ring, in order; whatever the host sent has been returned to a reader or
        is still on its way, in order; and no direction is asleep while it has work to
        do.  The run ends early only inside a call that is still spinning. */
    method Run(calls: seq<Call>) returns (log: seq<Exchange>)
      requires Valid() && alone && accepted == [] && delivered == [] && !owesWe && !owesRe
      modifies `rxIn, `txOut, `irqEnable, `control, `rxFifo, `txFifo, `hostActive, `raised, `hostInactive, `activity,
               `hostSent, `hostReceived, `silences, rx_buf, `rxOut, `delivered, `owesRe, tx_buf, `txIn,
               `accepted, `owesWe
      ensures Valid() && |log| <= |calls|
      ensures forall k :: 0 <= k < |log| ==> log[k].call == calls[k] && log[k].Possible()
      ensures hostReceived + txFifo + TxRing() == AllWritten(log)
      ensures AllRead(log) + RxRing() + rxFifo == hostSent
      ensures txIn != txOut ==> control.we
      ensures !control.re ==> RxFull()
      ensures |log| < |calls| ==> log != [] && log[|log| - 1].outcome.Waiting?
    {
      hide Live, Used, Conserved, Awake, RxFull, AllWritten, AllRead, Exchange.Possible, Exchange.Written;
      log := [];
      LogNone();
      for k := 0 to |calls|
        invariant Valid() && !owesWe && !owesRe && |log| == k
        invariant forall j :: 0 <= j < k ==> log[j].call == calls[j] && log[j].Possible()
        invariant accepted == AllWritten(log) && delivered == AllRead(log)
      {
        var e;
        if calls[k].ReadCall? {
          e := PerformRead(calls[k]);
        } else {
          e := PerformWrite(calls[k]);
        }
        LogOne(log, e);
        log := log + [e];
        if e.outcome.Waiting? {
          Flows();
          return;
        }
        PreemptWriter();
      }
      Flows();
    }

    /** Any sequence of writes and closes by one thread while another one reads, the two
        interleaved access by access.  What the writes claimed, and nothing else, is at
        the host, in the device and in the ring, in order; and output never waits with
        its interrupt off. */
    method RunWriter(calls: seq<Call>) returns (log: seq<Exchange>)
      requires Valid() && !owesWe
      requires forall k :: 0 <= k < |calls| ==> !calls[k].ReadCall?
      modifies `rxIn, `txOut, `irqEnable, `control, `rxFifo, `txFifo, `hostActive, `raised, `hostInactive, `activity,
               `hostSent, `hostReceived, `silences, rx_buf, `rxOut, `delivered, `owesRe, tx_buf, `txIn,
               `accepted, `owesWe
      ensures Valid() && |log| <= |calls|
      ensures forall k :: 0 <= k < |log| ==> log[k].call == calls[k] && log[k].Possible()
      ensures hostReceived + txFifo + TxRing() == old(accepted) + AllWritten(log)
      ensures delivered + RxRing() + rxFifo == hostSent
      ensures txIn != txOut ==> control.we
      ensures |log| < |calls| ==> log != [] && log[|log| - 1].outcome.Waiting?
    {
      hide Live, Used, Conserved, Awake, RxFull, AllWritten, AllRead, Exchange.Possible, Exchange.Written;
      log := [];
      LogNone();
      assert accepted + [] == accepted;
      for k := 0 to |calls|
        invariant Valid() && !owesWe && |log| == k
        invariant forall j :: 0 <= j < k ==> log[j].call == calls[j] && log[j].Possible()
        invariant accepted == old(accepted) + AllWritten(log)
      {
        var e := PerformWrite(calls[k]);
        LogOne(log, e);
        assert old(accepted) + (AllWritten(log) + e.Written()) == (old(accepted) + AllWritten(log)) + e.Written();
        log := log + [e];
        if e.outcome.Waiting? {
          Flows();
          return;
        }
        PreemptWriter();
      }
      Flows();
    }

    /** Any sequence of reads by one thread while another one writes, the two interleaved
        access by access.  What the host sent has been returned by the reads or is in the
        ring or in the device, in order; and the receive interrupt is off only while the
        ring is full. */
    method RunReader(calls: seq<Call>) returns (log: seq<Exchange>)
      requires Valid() && !owesRe
      requires forall k :: 0 <= k < |calls| ==> calls[k].ReadCall?
      modifies `rxIn, `txOut, `irqEnable, `control, `rxFifo, `txFifo, `hostActive, `raised, `hostInactive, `activity,
               `hostSent, `hostReceived, `silences, rx_buf, `rxOut, `delivered, `owesRe, tx_buf, `txIn,
               `accepted, `owesWe
      ensures Valid() && |log| <= |calls|
      ensures forall k :: 0 <= k < |log| ==> log[k].call == calls[k] && log[k].Possible()
      ensures old(delivered) + AllRead(log) + RxRing() + rxFifo == hostSent
      ensures hostReceived + txFifo + TxRing() == accepted
      ensures !control.re ==> RxFull()
      ensures |log| < |calls| ==> log != [] && log[|log| - 1].outcome.Waiting?
    {
      hide Live, Used, Conserved, Awake, RxFull, AllWritten, AllRead, Exchange.Possible, Exchange.Written;
      log := [];
      LogNone();
      assert delivered + [] == delivered;
      for k := 0 to |calls|
        invariant Valid() && !owesRe && |log| == k
        invariant forall j :: 0 <= j < k ==> log[j].call == calls[j] && log[j].Possible()
        invariant delivered == old(delivered) + AllRead(log)
      {
        var e := PerformRead(calls[k]);
        LogOne(log, e);
        assert old(delivered) + (AllRead(log) + e.bytes) == (old(delivered) + AllRead(log)) + e.bytes;
        log := log + [e];
        if e.outcome.Waiting? {
          Flows();
          return;
        }
        PreemptReader();
      }
      Flows();
    }

    /** One call of a writing thread. */
    method PerformWrite(call: Call) returns (e: Exchange)
      requires Valid() && !owesWe && !call.ReadCall?
      modifies `rxIn, `txOut, `irqEnable, `control, `rxFifo, `txFifo, `hostActive, `raised, `hostInactive, `activity,
               `hostSent, `hostReceived, `silences, rx_buf, `rxOut, `delivered, `owesRe, tx_buf, `txIn,
               `accepted, `owesWe
      ensures Valid() && !owesWe && e.call == call && e.Possible() && e.bytes == []
      ensures accepted == old(accepted) + e.Written()
      ensures alone ==> delivered == old(delivered) && owesRe == old(owesRe)
    {
      match call
      case WriteCall(data, nonblock) =>
        var r := Write(data, nonblock);
        return Exchange(call, r, []);
      case CloseCall(nonblock) =>
        var r := Close(nonblock);
        return Exchange(call, r, []);
    }

    /** One call of a reading thread. */
    method PerformRead(call: Call) returns (e: Exchange)
      requires Valid() && !owesRe && call.ReadCall?
      modifies `rxIn, `txOut, `irqEnable, `control, `rxFifo, `txFifo, `hostActive, `raised, `hostInactive, `activity,
               `hostSent, `hostReceived, `silences, rx_buf, `rxOut, `delivered, `owesRe, tx_buf, `txIn,
               `accepted, `owesWe
      ensures Valid() && !owesRe && e.call == call && e.Possible() && e.Written() == []
      ensures delivered == old(delivered) + e.bytes
      ensures alone ==> accepted == old(accepted) && owesWe == old(owesWe)
    {
      var buffer := new byte[call.space];
      var r := Read(buffer, call.nonblock);
      return Exchange(call, r, if r.Returned? && r.value > 0 then buffer[..r.value] else []);
    }
  }

  datatype Call =
    | WriteCall(data: seq<byte>, nonblock: bool)
    | ReadCall(space: nat, nonblock: bool)
    | CloseCall(nonblock: bool)

  /** How many bytes a call moved. */
  function Moved(outcome: Outcome): nat {
    match outcome
    case Returned(value) => if value > 0 then value else 0
    case Waiting(moved) => moved
  }

  /** A call, how it ended, and the bytes it handed to its caller. */
  datatype Exchange = Exchange(call: Call, outcome: Outcome, bytes: seq<byte>) {
    /** A call that moved nothing reports why: a caller that does not wait, or the host. */
    predicate Refusal(nonblock: bool) {
      outcome.Returned? && outcome.value <= 0 ==> outcome.value == if nonblock then -EWOULDBLOCK else -EIO
    }

    /** The call never claims more bytes than were asked for, and a reader gets
        exactly as many as the count says. */
    predicate Possible() {
      match call
      case WriteCall(data, nonblock) => Moved(outcome) <= |data| && bytes == [] && Refusal(nonblock)
      case ReadCall(space, nonblock) => Moved(outcome) == |bytes| <= space && Refusal(nonblock)
      case CloseCall(nonblock) =>
        bytes == [] && (outcome in {Returned(0), Waiting(0)} || (outcome == Returned(-EWOULDBLOCK) && nonblock))
    }

    /** The bytes that the call took from its caller. */
    function Written(): seq<byte> {
      match call
      case WriteCall(data, _) => if Moved(outcome) <= |data| then data[..Moved(outcome)] else data
      case ReadCall(_, _) => []
      case CloseCall(_) => []
    }
  }

  function AllWritten(log: seq<Exchange>): seq<byte> {
    if log == [] then [] else AllWritten(log[..|log| - 1]) + log[|log| - 1].Written()
  }

  function AllRead(log: seq<Exchange>): seq<byte> {
    if log == [] then [] else AllRead(log[..|log| - 1]) + log[|log| - 1].bytes
  }

  lemma LogNone()
    ensures AllWritten([]) == [] && AllRead([]) == []
  {
  }

  lemma LogOne(log: seq<Exchange>, e: Exchange)
    ensures AllWritten(log + [e]) == AllWritten(log) + e.Written()
    ensures AllRead(log + [e]) == AllRead(log) + e.bytes
  {
  }
}
