/** A writing and a reading thread on one JTAG UART driver, step by step.

    Each thread is a program counter and its local variables, and a step is at most one
    access to what the threads, the interrupt routine and the hardware share.  A scheduler
    picks who moves next.  Both threads' call logs appear in one statement. */
module JtagThreads {
  import opened JtagUart
  import opened Ring

  /** Where the writer is: comparing what is left to write, reading tx_out, storing the
      next byte or publishing the chunk, enabling interrupts, reading tx_out or
      host_inactive in the spin, reading host_inactive after it; or, in a close,
      comparing the indices and reading host_inactive. */
  datatype WriterPc =
    | WriterIdle | FillTest | ReadOut | CopyChunk | Kick | SpinOut | SpinHost | HostTest | CloseDrain | CloseHost

  /** Where the reader is: reading rx_in, loading the next byte or releasing the chunk,
      enabling interrupts, reading rx_in or host_inactive in the spin, reading rx_in after
      it. */
  datatype ReaderPc = ReaderIdle | Look | LoadChunk | EnableRx | SpinIn | SpinHost | InTest

  /** Who moves next: a thread, or the interrupt routine, the alarm or the hardware. */
  datatype Turn = Writer | Reader | Outside

  /** The log holds a completed call for each of the first calls of the script. */
  predicate Follows(log: seq<Exchange>, script: seq<Call>) {
    && |log| <= |script|
    && forall k :: 0 <= k < |log| ==> log[k].call == script[k] && log[k].outcome.Returned? && log[k].Possible()
  }

  lemma FollowsOn(log: seq<Exchange>, script: seq<Call>, e: Exchange)
    requires Follows(log, script) && |log| < |script|
    requires e.call == script[|log|] && e.outcome.Returned? && e.Possible()
    ensures Follows(log + [e], script)
  {
  }

  class Threads {
    const driver: Driver
    const writerCalls: seq<Call>
    const readerCalls: seq<Call>

    // The writer's program counter and locals, and the calls that it has completed.
    var wpc: WriterPc
    var data: seq<byte>
    var wnonblock: bool
    var taken: nat
    var wout: nat
    var wn: nat
    var stored: nat
    var wlog: seq<Exchange>

    // The reader's.
    var rpc: ReaderPc
    var space: nat
    var rnonblock: bool
    var got: seq<byte>
    var rin: nat
    var rn: nat
    var chunk: seq<byte>
    var rlog: seq<Exchange>

    /** The writer is between publishing bytes and enabling the interrupt for them. */
    predicate Kicking()
      reads `wpc
    {
      wpc.FillTest? || wpc.ReadOut? || wpc.CopyChunk? || wpc.Kick?
    }

    /** The reader has taken bytes and is on its way to enabling the interrupt. */
    predicate Enabling()
      reads `rpc, `got
    {
      (rpc.Look? || rpc.LoadChunk? || rpc.EnableRx?) && got != []
    }

    /** The call that the writer is in. */
    ghost predicate WriterIn()
      reads `wpc, `data, `wnonblock, `wlog
    {
      match wpc
      case WriterIdle => data == []
      case CloseDrain => data == [] && |wlog| < |writerCalls| && writerCalls[|wlog|] == CloseCall(wnonblock)
      case CloseHost => data == [] && |wlog| < |writerCalls| && writerCalls[|wlog|] == CloseCall(wnonblock)
      case _ => |wlog| < |writerCalls| && writerCalls[|wlog|] == WriteCall(data, wnonblock)
    }

    /** What the writer's loop keeps at each place. */
    ghost predicate WriterAt()
      requires driver.Shape()
      reads this, driver, driver.tx_buf
    {
      match wpc
      case ReadOut => taken < |data|
      case CopyChunk =>
        && 0 < wn && stored <= wn && taken + wn <= |data|
        && driver.txIn + wn <= BUF_LEN && Used(driver.txOut, driver.txIn) + wn < BUF_LEN
        && driver.tx_buf[driver.txIn..driver.txIn + stored] == data[taken..taken + stored]
      case SpinOut => taken < |data| && !wnonblock
      case SpinHost => taken < |data| && !wnonblock
      case HostTest => taken < |data| && !wnonblock
      case _ => true
    }

    ghost predicate WriterOk()
      requires driver.Shape()
      reads this, driver, driver.tx_buf
    {
      && Follows(wlog, writerCalls) && (forall k :: 0 <= k < |writerCalls| ==> !writerCalls[k].ReadCall?)
      && taken <= |data| && driver.accepted == AllWritten(wlog) + data[..taken]
      && (driver.owesWe ==> Kicking())
      && WriterIn() && WriterAt()
    }

    /** What the reader's loop keeps at each place. */
    ghost predicate ReaderAt()
      requires driver.Shape()
      reads this, driver, driver.rx_buf
    {
      match rpc
      case ReaderIdle => got == []
      case Look => |got| < space
      case LoadChunk =>
        && 0 < rn && |got| + rn <= space && |chunk| <= rn
        && driver.rxOut + rn <= BUF_LEN && rn <= Used(driver.rxOut, driver.rxIn)
        && chunk <= driver.RxRing()
      case EnableRx => got != []
      case _ => got == [] && !rnonblock && 0 < space && rin == driver.rxOut
    }

    ghost predicate ReaderOk()
      requires driver.Shape()
      reads this, driver, driver.rx_buf
    {
      && Follows(rlog, readerCalls) && (forall k :: 0 <= k < |readerCalls| ==> readerCalls[k].ReadCall?)
      && (!rpc.ReaderIdle? ==> |rlog| < |readerCalls| && readerCalls[|rlog|] == ReadCall(space, rnonblock))
      && |got| <= space && driver.delivered == AllRead(rlog) + got
      && (driver.owesRe ==> Enabling())
      && ReaderAt()
    }

    ghost predicate Valid()
      reads this, driver, driver.tx_buf, driver.rx_buf
    {
      driver.Valid() && WriterOk() && ReaderOk()
    }

    constructor (driver: Driver, writerCalls: seq<Call>, readerCalls: seq<Call>)
      requires driver.Valid() && driver.accepted == [] && driver.delivered == [] && !driver.owesWe && !driver.owesRe
      requires forall k :: 0 <= k < |writerCalls| ==> !writerCalls[k].ReadCall?
      requires forall k :: 0 <= k < |readerCalls| ==> readerCalls[k].ReadCall?
      ensures Valid() && this.driver == driver
      ensures this.writerCalls == writerCalls && this.readerCalls == readerCalls && wlog == [] && rlog == []
    {
      this.driver, this.writerCalls, this.readerCalls := driver, writerCalls, readerCalls;
      wpc, data, wnonblock, taken, wout, wn, stored, wlog := WriterIdle, [], false, 0, 0, 0, 0, [];
      rpc, space, rnonblock, got, rin, rn, chunk, rlog := ReaderIdle, 0, false, [], 0, 0, [], [];
      new;
      LogNone();
    }

    // ------------------------------------------------------------------ the writer

    /** The writer calls its next operation. */
    method CallWriter()
      requires driver.Valid() && WriterOk() && wpc.WriterIdle? && |wlog| < |writerCalls|
      modifies `wpc, `data, `wnonblock
      ensures WriterOk() && wpc == if writerCalls[|wlog|].WriteCall? then FillTest else CloseDrain
    {
      assert taken == 0;
      match writerCalls[|wlog|]
      case WriteCall(bytes, nonblock) =>
        assert bytes[..taken] == data[..taken];
        data, wnonblock, wpc := bytes, nonblock, FillTest;
      case CloseCall(nonblock) =>
        wnonblock, wpc := nonblock, CloseDrain;
    }

    /** The operation returns. */
    method WriterReturns(value: int)
      requires driver.Valid() && WriterOk() && !wpc.WriterIdle? && !driver.owesWe
      requires if wpc.CloseDrain? || wpc.CloseHost? then value == 0 || (value == -EWOULDBLOCK && wnonblock)
               else value == if taken != 0 then taken else if wnonblock then -EWOULDBLOCK else -EIO
      modifies `wpc, `data, `taken, `wlog
      ensures WriterOk() && wpc.WriterIdle?
      ensures wlog == old(wlog) + [Exchange(writerCalls[|old(wlog)|], Returned(value), [])]
    {
      hide Follows, AllWritten, Live, Driver.Conserved, Driver.Awake;
      var e := Exchange(writerCalls[|wlog|], Returned(value), []);
      assert e.Possible() && e.Written() == data[..taken];
      LogOne(wlog, e);
      FollowsOn(wlog, writerCalls, e);
      assert AllWritten(wlog + [e]) + [] == AllWritten(wlog) + data[..taken];
      wlog := wlog + [e];
      wpc, data, taken := WriterIdle, [], 0;
    }

    method WriteReturns()
      requires driver.Valid() && WriterOk() && (wpc.Kick? || wpc.HostTest?) && !driver.owesWe
      modifies `wpc, `data, `taken, `wlog
      ensures WriterOk() && wpc.WriterIdle?
      ensures |wlog| == |old(wlog)| + 1 && old(wlog) <= wlog
      ensures Moved(wlog[|old(wlog)|].outcome) == old(taken) && wlog[|old(wlog)|].call == WriteCall(old(data), wnonblock)
    {
      WriterReturns(if taken != 0 then taken else if wnonblock then -EWOULDBLOCK else -EIO);
    }

    /** The inner loop reads the consumer's index and works out the room. */
    method MeasureRoom()
      requires driver.Valid() && WriterOk() && wpc.ReadOut?
      modifies `wpc, `wout, `wn, `stored
      ensures WriterOk()
      ensures wpc == if Used(driver.txOut, driver.txIn) == BUF_LEN - 1 then Kick else CopyChunk
    {
      hide Follows, AllWritten;
      wout := driver.txOut;
      var n := Room(wout, driver.txIn);
      if n == 0 {
        wpc := Kick;
      } else {
        wn, stored := if n > |data| - taken then |data| - taken else n, 0;
        wpc := CopyChunk;
      }
    }

    /** One byte of the copy. */
    method StoreNext()
      requires driver.Valid() && WriterOk() && wpc.CopyChunk? && stored < wn
      modifies `stored, driver.tx_buf
      ensures driver.Valid() && WriterOk() && stored == old(stored) + 1
    {
      hide Follows, AllWritten, Live, Driver.Conserved, Driver.Awake;
      ghost var inn, was := driver.txIn, driver.tx_buf[..];
      driver.StoreByte(driver.txIn + stored, data[taken + stored]);
      assert driver.tx_buf[inn..inn + stored] == was[inn..inn + stored];
      assert driver.tx_buf[inn..inn + stored + 1] == driver.tx_buf[inn..inn + stored] + [driver.tx_buf[inn + stored]];
      assert data[taken..taken + stored + 1] == data[taken..taken + stored] + [data[taken + stored]];
      stored := stored + 1;
    }

    /** The copy is complete: the producer's index moves over it. */
    method PublishAll()
      requires driver.Valid() && WriterOk() && wpc.CopyChunk? && stored == wn
      modifies `wpc, `taken, driver`txIn, driver`accepted, driver`owesWe
      ensures driver.Valid() && WriterOk() && taken == old(taken) + wn && wpc == FillTest
    {
      hide Follows, AllWritten, Live, Driver.Conserved, Driver.Awake;
      driver.Publish(data[taken..taken + wn], driver.txIn);
      assert AllWritten(wlog) + data[..taken + wn] == AllWritten(wlog) + data[..taken] + data[taken..taken + wn];
      taken, wpc := taken + wn, FillTest;
    }

    /** The write enables the transmit interrupt, and then returns or waits. */
    method KickInterrupt()
      requires driver.Valid() && WriterOk() && wpc.Kick?
      modifies `wpc, `data, `taken, `wlog, driver`irqEnable, driver`control, driver`owesWe
      ensures driver.Valid() && WriterOk() && driver.control.we && !driver.owesWe
      ensures wpc == if old(taken < |data|) && !wnonblock then SpinOut else WriterIdle
      ensures old(wlog) <= wlog && WellEnded(|old(wlog)|)
    {
      hide Follows, AllWritten, Live, Driver.Conserved, Driver.Awake;
      driver.EnableTransmit();
      if taken < |data| && !wnonblock {
        wpc := SpinOut;
      } else {
        WriteReturns();
      }
    }

    /** A write that has just returned took less than everything only from a caller that
        does not wait or with the host quiet; a close succeeded only with the ring empty or
        the host judged inactive, and otherwise its caller does not wait. */
    predicate WellEnded(n: nat)
      reads this, driver
    {
      n < |wlog| ==>
        var e := wlog[n];
        && n + 1 == |wlog|
        && (e.call.WriteCall? && Moved(e.outcome) < |e.call.data| ==> e.call.nonblock || driver.hostInactive != 0)
        && (e.call.CloseCall? ==>
              if e.outcome == Returned(0) then driver.txOut == driver.txIn || driver.hostInactive >= driver.timeout
              else e.call.nonblock && driver.hostInactive < driver.timeout)
    }

    /** A step of the writer that only looks: is there room, is the host there. */
    method WriterWaits()
      requires driver.Valid() && WriterOk()
      requires wpc.SpinOut? || wpc.SpinHost? || wpc.HostTest? || wpc.CloseDrain? || wpc.CloseHost?
      modifies `wpc, `data, `taken, `wlog
      ensures WriterOk() && old(wlog) <= wlog && WellEnded(|old(wlog)|) && wpc != old(wpc)
      ensures old(wpc).SpinOut? ==> wpc == if wout != driver.txOut then HostTest else WriterPc.SpinHost
      ensures old(wpc).SpinHost? ==> wpc == if driver.hostInactive >= driver.timeout then HostTest else SpinOut
      ensures old(wpc).HostTest? ==> wpc == if driver.hostInactive != 0 then WriterIdle else FillTest
    {
      hide Follows, AllWritten, Live, Driver.Conserved, Driver.Awake;
      match wpc
      case SpinOut =>
        wpc := if wout != driver.txOut then HostTest else WriterPc.SpinHost;
      case SpinHost =>
        wpc := if driver.hostInactive >= driver.timeout then HostTest else SpinOut;
      case HostTest =>
        if driver.hostInactive != 0 {
          WriteReturns();
        } else {
          wpc := FillTest;
        }
      case CloseDrain =>
        if driver.txOut == driver.txIn {
          WriterReturns(0);
        } else {
          wpc := CloseHost;
        }
      case CloseHost =>
        if driver.hostInactive >= driver.timeout {
          WriterReturns(0);
        } else if wnonblock {
          WriterReturns(-EWOULDBLOCK);
        } else {
          wpc := CloseDrain;
        }
    }

    /** One step of the writer. */
    method WriterMoves()
      requires driver.Valid() && WriterOk()
      modifies `wpc, `data, `wnonblock, `taken, `wout, `wn, `stored, `wlog,
               driver`txIn, driver`accepted, driver`owesWe, driver`irqEnable, driver`control, driver.tx_buf
      ensures driver.Valid() && WriterOk() && old(wlog) <= wlog && WellEnded(|old(wlog)|)
      ensures wpc == old(wpc) ==> (wpc.CopyChunk? && stored > old(stored)) || |wlog| >= |writerCalls|
    {
      hide Follows, AllWritten, Live, Driver.Conserved, Driver.Awake;
      match wpc
      case WriterIdle =>
        if |wlog| < |writerCalls| {
          CallWriter();
        }
      case FillTest =>
        wpc := if taken < |data| then ReadOut else Kick;
      case ReadOut =>
        MeasureRoom();
      case CopyChunk =>
        if stored < wn {
          StoreNext();
        } else {
          PublishAll();
        }
      case Kick =>
        KickInterrupt();
      case _ =>
        WriterWaits();
    }

    // ------------------------------------------------------------------ the reader

    /** A read that has just returned nothing, with room in the buffer, did so at a moment
        when the ring was empty. */
    predicate NothingLeft(n: nat)
      reads this, driver
    {
      n < |rlog| ==>
        && n + 1 == |rlog|
        && (rlog[n].call.ReadCall? && rlog[n].call.space > 0 && rlog[n].bytes == [] ==> driver.rxIn == driver.rxOut)
    }

    /** The read returns. */
    method ReadReturns()
      requires driver.Valid() && ReaderOk() && !driver.owesRe
      requires |rlog| < |readerCalls| && readerCalls[|rlog|] == ReadCall(space, rnonblock)
      modifies `rpc, `got, `rlog
      ensures ReaderOk() && rpc.ReaderIdle?
      ensures |rlog| == |old(rlog)| + 1 && old(rlog) <= rlog
      ensures rlog[|old(rlog)|].call == ReadCall(space, rnonblock) && rlog[|old(rlog)|].bytes == old(got)
    {
      hide Follows, AllRead, Live, Driver.Conserved, Driver.Awake;
      var value := if got != [] then |got| else if rnonblock then -EWOULDBLOCK else -EIO;
      var e := Exchange(readerCalls[|rlog|], Returned(value), got);
      LogOne(rlog, e);
      FollowsOn(rlog, readerCalls, e);
      assert AllRead(rlog + [e]) + [] == AllRead(rlog) + got;
      rlog := rlog + [e];
      rpc, got := ReaderIdle, [];
    }

    /** The reader calls read; with no room in the buffer the loop is not entered. */
    method CallReader()
      requires driver.Valid() && ReaderOk() && rpc.ReaderIdle? && |rlog| < |readerCalls|
      modifies `rpc, `space, `rnonblock, `got, `rlog
      ensures ReaderOk() && old(rlog) <= rlog && NothingLeft(|old(rlog)|)
      ensures if space > 0 then rpc.Look? else |rlog| > |old(rlog)|
    {
      hide Follows, AllRead, Live, Driver.Conserved, Driver.Awake;
      space, rnonblock := readerCalls[|rlog|].space, readerCalls[|rlog|].nonblock;
      if space > 0 {
        rpc := Look;
      } else {
        ReadReturns();
      }
    }

    /** The inner loop reads the producer's index and works out what is there. */
    method MeasureStretch()
      requires driver.Valid() && ReaderOk() && rpc.Look?
      modifies `rpc, `got, `rlog, `rin, `rn, `chunk
      ensures ReaderOk() && old(rlog) <= rlog && NothingLeft(|old(rlog)|)
      ensures !rpc.Look? && (rpc.LoadChunk? <==> driver.rxIn != driver.rxOut)
    {
      hide Follows, AllRead, Live, Driver.Conserved, Driver.Awake;
      rin := driver.rxIn;
      var n := Stretch(driver.rxOut, rin);
      if n > 0 {
        rn, chunk := if n > space - |got| then space - |got| else n, [];
        rpc := LoadChunk;
      } else if got != [] {
        rpc := EnableRx;
      } else if rnonblock {
        ReadReturns();
      } else {
        rpc := SpinIn;
      }
    }

    /** One byte of the copy. */
    method LoadNext()
      requires driver.Valid() && ReaderOk() && rpc.LoadChunk? && |chunk| < rn
      modifies `chunk
      ensures ReaderOk() && |chunk| == |old(chunk)| + 1
    {
      hide Follows, AllRead, Driver.Conserved, Driver.Awake;
      var b := driver.rx_buf[driver.rxOut + |chunk|];
      assert b == driver.RxRing()[|chunk|];
      chunk := chunk + [b];
    }

    /** The copy is complete: the consumer's index moves over it. */
    method ReleaseAll()
      requires driver.Valid() && ReaderOk() && rpc.LoadChunk? && |chunk| == rn
      modifies `rpc, `got, driver`rxOut, driver`delivered, driver`owesRe
      ensures driver.Valid() && ReaderOk() && got == old(got) + chunk && !rpc.LoadChunk?
    {
      hide Follows, AllRead, Live, Driver.Conserved, Driver.Awake;
      assert driver.RxRing()[..rn] == chunk;
      driver.Release(rn);
      assert AllRead(rlog) + got + chunk == AllRead(rlog) + (got + chunk);
      got := got + chunk;
      rpc := if |got| == space then EnableRx else Look;
    }

    /** A step of the reader that only looks: has a byte come, is the host there. */
    method ReaderWaits()
      requires driver.Valid() && ReaderOk() && (rpc.SpinIn? || rpc.SpinHost? || rpc.InTest?)
      modifies `rpc, `got, `rlog
      ensures ReaderOk() && old(rlog) <= rlog && NothingLeft(|old(rlog)|) && rpc != old(rpc)
      ensures old(rpc).SpinIn? ==> rpc == if rin != driver.rxIn then InTest else ReaderPc.SpinHost
      ensures old(rpc).SpinHost? ==> rpc == if driver.hostInactive >= driver.timeout then InTest else SpinIn
      ensures old(rpc).InTest? ==> rpc == if rin == driver.rxIn then ReaderIdle else Look
    {
      hide Follows, AllRead, Live, Driver.Conserved, Driver.Awake;
      match rpc
      case SpinIn =>
        rpc := if rin != driver.rxIn then InTest else ReaderPc.SpinHost;
      case SpinHost =>
        rpc := if driver.hostInactive >= driver.timeout then InTest else SpinIn;
      case InTest =>
        if rin == driver.rxIn {
          ReadReturns();
        } else {
          rpc := Look;
        }
    }

    /** One step of the reader. */
    method ReaderMoves()
      requires driver.Valid() && ReaderOk()
      modifies `rpc, `space, `rnonblock, `got, `rin, `rn, `chunk, `rlog,
               driver`rxOut, driver`delivered, driver`owesRe, driver`irqEnable, driver`control
      ensures driver.Valid() && ReaderOk() && old(rlog) <= rlog && NothingLeft(|old(rlog)|)
      ensures old(rpc).EnableRx? ==> rpc.ReaderIdle? && driver.control.re
      ensures rpc == old(rpc) ==>
                (rpc.LoadChunk? && |chunk| > |old(chunk)|) || |rlog| > |old(rlog)| || |rlog| >= |readerCalls|
    {
      hide Follows, AllRead, Live, Driver.Conserved, Driver.Awake;
      match rpc
      case ReaderIdle =>
        if |rlog| < |readerCalls| {
          CallReader();
        }
      case Look =>
        MeasureStretch();
      case LoadChunk =>
        if |chunk| < rn {
          LoadNext();
        } else {
          ReleaseAll();
        }
      case EnableRx =>
        driver.EnableReceive();
        ReadReturns();
      case _ =>
        ReaderWaits();
    }

    // ---------------------------------------------------------- whole runs of both

    /** The reader's places do not depend on what a step of the writer changes. */
    method WriterTurn()
      requires Valid()
      modifies this, driver, driver.tx_buf
      ensures Valid()
    {
      hide Follows, AllRead, AllWritten, Live, Driver.Conserved, Driver.Awake, WellEnded, NothingLeft, Driver.RxFull;
      WriterMoves();
    }

    /** Nor the writer's on a step of the reader. */
    method ReaderTurn()
      requires Valid()
      modifies this, driver
      ensures Valid()
    {
      hide Follows, AllRead, AllWritten, Live, Driver.Conserved, Driver.Awake, WellEnded, NothingLeft, Driver.RxFull,
           WriterIn, ReaderAt;
      ReaderMoves();
    }

    /** The interrupt routine only makes room for the writer and bytes for the reader. */
    method OutsideTurn()
      requires Valid()
      modifies driver, driver.rx_buf
      ensures Valid()
    {
      hide Follows, AllRead, AllWritten, Live, Driver.Conserved, Driver.Awake;
      driver.Disturb();
    }

    /** Any schedule of a writing thread working through its calls, a reading thread
        working through its own, and the interrupt routine, the alarm and the hardware.
        What the completed writes claimed and the one under way has published is at the
        host, in the device or in the ring, in order; what the host sent has been returned
        by the completed reads, is with the one under way, or is in the ring or the device,
        in order.  Waiting output has an interrupt to move it unless the writer is about to
        enable it, and the receive interrupt is off only while the ring is full or the
        reader is about to enable it. */
    method Run(schedule: seq<Turn>)
      requires Valid()
      modifies this, driver, driver.tx_buf, driver.rx_buf
      ensures Valid()
      ensures Follows(wlog, writerCalls) && Follows(rlog, readerCalls)
      ensures taken <= |data| && (wpc.WriterIdle? ==> data == [])
      ensures driver.hostReceived + driver.txFifo + driver.TxRing() == AllWritten(wlog) + data[..taken]
      ensures rpc.ReaderIdle? ==> got == []
      ensures AllRead(rlog) + got + driver.RxRing() + driver.rxFifo == driver.hostSent
      ensures driver.txIn != driver.txOut ==> driver.control.we || Kicking()
      ensures !driver.control.re ==> driver.RxFull() || Enabling()
    {
      hide Follows, AllRead, AllWritten, Live, Driver.Conserved, Driver.Awake;
      for k := 0 to |schedule|
        invariant Valid()
      {
        match schedule[k]
        case Writer => WriterTurn();
        case Reader => ReaderTurn();
        case Outside => OutsideTurn();
      }
      driver.Flows();
    }
  }
}
