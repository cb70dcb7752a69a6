/**
  The single-slot transmitter of lamp commands (applications/lmsuart.c): a thread fills the slot, and
  a timer interrupt sends it byte by byte. The interrupt may come between any two assignments of the
  thread, and runs to its end.
 */
module LampCommands {
  import opened Wrappers

  type Byte = bv8

  const LONG_CMD: Byte := 1
  const SHORT_FRAME: Byte := 0x15

  datatype SendState = TxShort | TxLong    // STATE_TX_SS, STATE_TX_LS

  datatype Request = Request(group: Byte, segment: Byte, order: Byte)

  /** How far the thread is in `build_ctrl_cmd`: the assignments that are done. */
  datatype Progress = Idle | Entered(r: Request) | Writing(r: Request, done: nat)

  /** The frames sent one after another. */
  function Flat(frames: seq<seq<Byte>>): seq<Byte> {
    if frames == [] then [] else Flat(frames[..|frames| - 1]) + frames[|frames| - 1]
  }

  lemma FlatAppend(frames: seq<seq<Byte>>, f: seq<Byte>)
    ensures Flat(frames + [f]) == Flat(frames) + f
  {
    assert (frames + [f])[..|frames|] == frames;
  }

  datatype Step = DoCall(r: Request) | DoContinue | DoInterrupt

  /** The transmitter without the bytes of its slot. */
  datatype Snapshot = Snapshot(locked: bool, sending: bool, index: nat, progress: Progress, accepted: seq<seq<Byte>>,
    wire: seq<Byte>)

  class Transmitter {
    const sync: (Byte, Byte) -> Byte    // GenSyncFrame
    const crc4: seq<Byte> -> Byte       // crc4_itu
    var writeLock: bool
    var group: Byte
    var segment: Byte
    var order: Byte
    var data: seq<Byte>                 // cmd_data
    var index: nat                      // cmd_current_send_index
    var sendState: SendState
    var progress: Progress
    ghost var accepted: seq<seq<Byte>>  // the frames of all requests that found the slot open
    ghost var wire: seq<Byte>           // the bytes of long frames, as sent

    /** The three bytes of a command. */
    function Frame(r: Request): (f: seq<Byte>)
      ensures |f| == 3
    {
      [sync(r.group, LONG_CMD), r.segment, crc4([r.segment, r.order << 4]) | (r.order << 4)]
    }

    /** The frame carries the segment and the low half of the order, and the check sum of both if that has four bits. */
    lemma FrameReadsBack(r: Request)
      requires crc4([r.segment, r.order << 4]) < 16
      ensures var f := Frame(r);
        && f[0] == sync(r.group, LONG_CMD) && f[1] == r.segment && f[2] >> 4 == r.order & 15
        && f[2] & 15 == crc4([r.segment, r.order << 4])
    {
      Halves(crc4([r.segment, r.order << 4]), r.order);
    }

    lemma Halves(c: Byte, o: Byte)
      requires c < 16
      ensures (c | (o << 4)) >> 4 == o & 15 && (c | (o << 4)) & 15 == c
    {
    }

    ghost function View(): Snapshot
      reads this
    {
      Snapshot(writeLock, sendState == TxLong, index, progress, accepted, wire)
    }

    /** What a step makes of the transmitter. The byte that an interrupt sends is the next one of all
        accepted frames, wherever it comes from. */
    function Moved(s: Snapshot, step: Step): Snapshot {
      match step
      case DoCall(r) => if s.progress == Idle && !s.locked then s.(progress := Entered(r)) else s
      case DoContinue =>
        (match s.progress
        case Idle => s
        case Entered(r) => s.(locked := true, accepted := s.accepted + [Frame(r)], progress := Writing(r, 0))
        case Writing(r, done) =>
          if done < 6 then s.(progress := Writing(r, done + 1)) else s.(progress := Idle, sending := true))
      case DoInterrupt =>
        if !s.sending then s
        else if s.index <= 2 && |s.wire| < |Flat(s.accepted)| then
          s.(wire := s.wire + [Flat(s.accepted)[|s.wire|]], index := s.index + 1)
        else s.(index := 0, locked := false, sending := false)
    }

    function AfterAll(s: Snapshot, steps: seq<Step>): Snapshot {
      if steps == [] then s else Moved(AfterAll(s, steps[..|steps| - 1]), steps[|steps| - 1])
    }

    /** The frame in the slot is the last that was accepted; all frames before it are on the wire. */
    ghost predicate Sending(sent: nat)
      reads this
    {
      && accepted != [] && sent <= 3 && |accepted[|accepted| - 1]| == 3
      && wire == Flat(accepted[..|accepted| - 1]) + accepted[|accepted| - 1][..sent]
    }

    ghost predicate Valid()
      reads this
    {
      && |data| == 3 && (forall i :: 0 <= i < |accepted| ==> |accepted[i]| == 3)
      && (progress.Entered? ==> !writeLock)
      && (!writeLock ==> !progress.Writing? && sendState == TxShort && index == 0 && wire == Flat(accepted))
      && (writeLock && progress.Writing? ==>
            && sendState == TxShort && index == 0 && Sending(0)
            && progress.done <= 6 && accepted[|accepted| - 1] == Frame(progress.r)
            && (forall j :: 0 <= j < progress.done - 3 ==> data[j] == Frame(progress.r)[j]))
      && (writeLock && !progress.Writing? ==>
            sendState == TxLong && index <= 3 && Sending(index) && data == accepted[|accepted| - 1])
    }

    /** `lms_init` */
    constructor (sync: (Byte, Byte) -> Byte, crc4: seq<Byte> -> Byte)
      ensures Valid() && accepted == [] && wire == [] && progress == Idle
    {
      this.sync, this.crc4 := sync, crc4;
      writeLock, group, segment, order, index := false, 0, 0, 0, 0;
      data, sendState, progress := [0, 0, 0], TxShort, Idle;
      accepted, wire := [], [];
    }

    /** The thread calls `build_ctrl_cmd`: the request is dropped if the slot is taken. */
    method Call(r: Request)
      requires Valid() && progress == Idle
      modifies `progress
      ensures Valid() && View() == Moved(old(View()), DoCall(r))
      ensures progress == if writeLock then Idle else Entered(r)
    {
      if writeLock {
        return;
      }
      progress := Entered(r);
    }

    /** The next assignment of `build_ctrl_cmd` */
    method Continue()
      requires Valid() && progress != Idle
      modifies `writeLock, `group, `segment, `order, `data, `sendState, `progress, `accepted
      ensures Valid() && View() == Moved(old(View()), DoContinue)
      ensures old(progress).Entered? ==> writeLock && accepted == old(accepted) + [Frame(old(progress).r)]
      ensures old(progress).Writing? ==> writeLock && accepted == old(accepted)
      ensures sendState == if old(progress).Writing? && old(progress).done >= 6 then TxLong else old(sendState)
    {
      var r := progress.r;
      if progress.Entered? {
        FlatAppend(accepted, Frame(r));
        writeLock := true;
        accepted := accepted + [Frame(r)];
        progress := Writing(r, 0);
      } else {
        Assign(r, progress.done);
      }
    }

    /** The assignments after that of the lock: the request, the frame, and the state. */
    method Assign(r: Request, done: nat)
      requires Valid() && progress == Writing(r, done)
      modifies `group, `segment, `order, `data, `sendState, `progress
      ensures Valid() && progress == (if done < 6 then Writing(r, done + 1) else Idle)
      ensures sendState == if done < 6 then old(sendState) else TxLong
    {
      progress := if done < 6 then Writing(r, done + 1) else Idle;
      match done
      case 0 => group := r.group;
      case 1 => segment := r.segment;
      case 2 => order := r.order;
      case 3 => data := data[0 := sync(r.group, LONG_CMD)];
      case 4 => data := data[1 := r.segment];
      case 5 => data := data[2 := crc4([r.segment, r.order << 4]) | (r.order << 4)];
      case _ => sendState := TxLong;
    }

    /** `send_state_machine`, called by the interrupt; the byte that goes to the line */
    method Interrupt() returns (byte: Option<Byte>)
      requires Valid()
      modifies `writeLock, `index, `sendState, `wire
      ensures Valid() && View() == Moved(old(View()), DoInterrupt)
      ensures old(sendState) == TxShort ==> byte == Some(SHORT_FRAME)
      ensures old(sendState) == TxLong && byte.Some? ==> wire == old(wire) + [byte.value]
      ensures old(sendState) == TxLong ==>
        if old(index) <= 2 then byte == Some(data[old(index)]) && index == old(index) + 1 && writeLock == old(writeLock)
        else byte == None && !writeLock && sendState == TxShort
    {
      match sendState
      case TxShort =>
        byte := Some(SHORT_FRAME);
      case TxLong =>
        if index <= 2 {
          NextByte();
          byte := Some(data[index]);
          wire := wire + [data[index]];
          index := index + 1;
        } else {
          byte := None;
          Reopen();
        }
    }

    /** The branch of `send_state_machine` after the last byte of a frame. */
    method Reopen()
      requires Valid() && sendState == TxLong && index > 2
      modifies `writeLock, `index, `sendState
      ensures Valid() && !writeLock && index == 0 && sendState == TxShort
    {
      var n := |accepted| - 1;
      assert accepted == accepted[..n] + [accepted[n]];
      FlatAppend(accepted[..n], accepted[n]);
      index := 0;
      writeLock := false;
      sendState := TxShort;
    }

    /** The thread's next assignment, a new call of it, or an interrupt. */
    method Perform(step: Step)
      requires Valid()
      modifies this
      ensures Valid() && View() == Moved(old(View()), step)
    {
      match step
      case DoCall(r) => if progress == Idle { Call(r); }
      case DoContinue => if progress != Idle { Continue(); }
      case DoInterrupt => var _ := Interrupt();
    }

    /** Whatever the steps and their order, the long-frame bytes on the line are those of the accepted
        commands in the order of acceptance, each whole and once, but for the rest of the last one. */
    method Run(steps: seq<Step>)
      requires Valid()
      modifies this
      ensures Valid() && View() == AfterAll(old(View()), steps)
      ensures wire <= Flat(accepted) && |Flat(accepted)| - |wire| <= 3
      ensures !writeLock ==> wire == Flat(accepted)
    {
      for i := 0 to |steps|
        invariant Valid() && View() == AfterAll(old(View()), steps[..i])
      {
        assert steps[..i + 1][..i] == steps[..i];
        Perform(steps[i]);
      }
      assert steps[..|steps|] == steps;
      WireIsPrefix();
    }

    /** A request that finds the slot open, with nothing in between: the interrupts that follow put its frame on the
        line, and the slot is open again. */
    method SendOne(r: Request)
      requires Valid() && progress == Idle && !writeLock
      modifies this
      ensures Valid() && progress == Idle && !writeLock
      ensures accepted == old(accepted) + [Frame(r)] && wire == old(wire) + Frame(r)
    {
      Call(r);
      Continue();
      ghost var frame := Frame(r);
      for done := 0 to 7
        invariant Valid() && accepted == old(accepted) + [frame] && wire == old(wire)
        invariant progress == (if done < 7 then Writing(r, done) else Idle)
        invariant if done < 7 then sendState == TxShort else sendState == TxLong && writeLock && index == 0
      {
        Continue();
      }
      SendFrame(frame);
    }

    /** The four interrupts that send a frame. */
    method SendFrame(ghost frame: seq<Byte>)
      requires Valid() && writeLock && sendState == TxLong && index == 0 && progress == Idle
      requires accepted != [] && frame == accepted[|accepted| - 1]
      modifies this
      ensures Valid() && !writeLock && progress == Idle && accepted == old(accepted) && wire == old(wire) + frame
    {
      for i := 0 to 3
        invariant Valid() && writeLock && sendState == TxLong && index == i && progress == Idle
        invariant accepted == old(accepted) && data == frame && wire == old(wire) + frame[..i]
      {
        var byte := Interrupt();
      }
      var none := Interrupt();
    }

    /** While a frame is sent, the next byte in the slot is the next one of all accepted frames. */
    lemma NextByte()
      requires Valid() && sendState == TxLong && index <= 2
      ensures |wire| < |Flat(accepted)| && Flat(accepted)[|wire|] == data[index]
    {
      var n := |accepted| - 1;
      assert accepted == accepted[..n] + [accepted[n]];
      FlatAppend(accepted[..n], accepted[n]);
    }

    lemma WireIsPrefix()
      requires Valid()
      ensures wire <= Flat(accepted) && |Flat(accepted)| - |wire| <= 3
    {
      if writeLock {
        var n := |accepted| - 1;
        assert accepted == accepted[..n] + [accepted[n]];
        FlatAppend(accepted[..n], accepted[n]);
      }
    }
  }
}
