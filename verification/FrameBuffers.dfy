/** The buffers behind the hand-off, as they are updated in place under `frame_lock`: each critical section
    is a method proved to make the step of the state machine (src/sender.c:508-527, 572-626, 752-755). */
module FrameBuffers {
  import opened Common
  import opened FrameHandoff

  class VideoCapture {
    var latestFrame: array<byte>
    var w: nat
    var h: nat
    var linesize: nat
    var ready: bool

    constructor ()
      ensures fresh(latestFrame) && View() == Capture([], 0, 0, 0, false)
    {
      latestFrame, w, h, linesize, ready := new byte[0], 0, 0, 0, false;
    }

    function View(): Capture
      reads this, latestFrame
    {
      Capture(latestFrame[..], w, h, linesize, ready)
    }

    /** The publish section of `capture_one`; `data` is the mapped surface. */
    method PublishFrame(data: array<byte>, w: nat, h: nat, linesize: nat)
      requires linesize * h <= data.Length && data != latestFrame
      modifies this, latestFrame
      ensures latestFrame == old(latestFrame) || fresh(latestFrame)
      ensures View() == Publish(old(View()), Frame(w, h, linesize, data[..linesize * h]))
    {
      var need := linesize * h;
      latestFrame := CopyInto(latestFrame, data, need);
      this.w, this.h, this.linesize := w, h, linesize;
      ready := true;
    }
  }

  /** Copies `need` bytes to the start of `dst`, or of a new buffer of that size if `dst` is too small. */
  method CopyInto(dst: array<byte>, src: array<byte>, need: nat) returns (buffer: array<byte>)
    requires need <= src.Length && src != dst
    modifies dst
    ensures buffer == dst || fresh(buffer)
    ensures buffer[..] == Overwrite(old(dst[..]), src[..need])
  {
    buffer := dst;
    if dst.Length < need {
      buffer := new byte[need];
    }
    for k := 0 to need
      invariant forall j :: 0 <= j < k ==> buffer[j] == src[j]
      invariant forall j :: k <= j < dst.Length ==> dst[j] == old(dst[j])
      invariant src[..] == old(src[..])
    {
      buffer[k] := src[k];
    }
  }

  class Handoff {
    const captures: seq<VideoCapture>
    var running: bool
    var pc: Pc
    var local: array<byte>
    var encoded: seq<seq<Frame>>
    ghost var sys: Sys

    /** No two captures are the same object, and no two buffers are. */
    ghost predicate Separate()
      reads this, captures
    {
      && (forall i, j :: 0 <= i < j < |captures| ==>
           captures[i] != captures[j] && captures[i].latestFrame != captures[j].latestFrame)
      && (forall i :: 0 <= i < |captures| ==> captures[i].latestFrame != local)
    }

    ghost function Buffers(): set<object>
      reads this, captures
    {
      {local} + set i | 0 <= i < |captures| :: captures[i].latestFrame
    }

    /** The state machine's state is that of the fields. */
    ghost predicate Tied()
      reads this, captures, Buffers()
    {
      && Separate()
      && |sys.lanes| == |captures| == |encoded|
      && (forall i :: 0 <= i < |captures| ==> sys.lanes[i].cap == captures[i].View() && sys.lanes[i].encoded == encoded[i])
      && sys.running == running && sys.pc == pc && sys.local == local[..]
    }

    ghost predicate Valid()
      reads this, captures, Buffers()
    {
      Tied() && Inv(sys)
    }

    /** A ready frame lies within its buffer. */
    ghost predicate Sized()
      reads this, captures
    {
      forall i :: 0 <= i < |captures| && captures[i].ready ==> captures[i].linesize * captures[i].h <= captures[i].latestFrame.Length
    }

    constructor (captures: seq<VideoCapture>)
      requires forall i :: 0 <= i < |captures| ==> captures[i].View() == Capture([], 0, 0, 0, false)
      requires forall i, j :: 0 <= i < j < |captures| ==>
        captures[i] != captures[j] && captures[i].latestFrame != captures[j].latestFrame
      ensures Valid() && this.captures == captures && sys == Initial(|captures|)
    {
      this.captures := captures;
      running, pc := true, Top;
      local := new byte[0];
      encoded := seq(|captures|, _ => []);
      sys := Initial(|captures|);
      InitialInv(|captures|);
    }

    /** The graphics thread publishes a frame and signals the condition. */
    method CaptureOne(i: nat, data: array<byte>, w: nat, h: nat, linesize: nat)
      requires Valid() && i < |captures| && linesize * h <= data.Length && data !in Buffers()
      modifies this, captures[i], captures[i].latestFrame
      ensures Valid() && local == old(local)
      ensures sys == Next(old(sys), Produce(i, Frame(w, h, linesize, data[..linesize * h])))
    {
      hide Inv, Work, Publish, Tied;
      NextKeeps(sys, Produce(i, Frame(w, h, linesize, data[..linesize * h])));
      TiedLengths();
      PublishAt(i, data, w, h, linesize);
      Signal();
    }

    ghost method TiedLengths()
      requires Tied()
      ensures |sys.lanes| == |captures| && sys.pc == pc
    {}

    method PublishAt(i: nat, data: array<byte>, w: nat, h: nat, linesize: nat)
      requires Tied() && i < |captures| && linesize * h <= data.Length && data !in Buffers()
      modifies this`sys, captures[i], captures[i].latestFrame
      ensures Tied() && sys == PublishTo(old(sys), i, Frame(w, h, linesize, data[..linesize * h]))
    {
      hide Inv, Work, Publish;
      sys := PublishTo(sys, i, Frame(w, h, linesize, data[..linesize * h]));
      captures[i].PublishFrame(data, w, h, linesize);
      assert Separate();
      assert forall k :: 0 <= k < |captures| && k != i ==> captures[k].View() == old(captures[k].View());
      assert local[..] == old(local[..]);
    }

    method Signal()
      requires Tied()
      modifies this`pc, this`sys
      ensures Tied() && sys == old(sys).(pc := Wake(old(sys).pc))
    {
      if pc.Asleep? {
        pc := Asleep(true);
      }
      sys := sys.(pc := Wake(sys.pc));
    }

    method StopWorker()
      requires Valid()
      modifies this
      ensures Valid() && local == old(local) && sys == Next(old(sys), Stop)
    {
      NextKeeps(sys, Stop);
      running := false;
      sys := sys.(running := false);
      Signal();
    }

    method AnyCaptureReady() returns (any: bool)
      requires Valid()
      ensures any == AnyReady(sys.lanes)
    {
      for i := 0 to |captures|
        invariant forall k :: 0 <= k < i ==> !sys.lanes[k].cap.ready
      {
        assert sys.lanes[i].cap == captures[i].View();
        if captures[i].ready {
          return true;
        }
      }
      return false;
    }

    /** One critical section of the worker, from getting the lock until it waits, encodes or leaves, with
        the encoding of the frame in hand before it. */
    method WorkerTurn()
      requires Valid()
      modifies this, captures, local
      ensures Valid() && (local == old(local) || fresh(local))
      ensures sys == Next(old(sys), Worker)
    {
      hide Inv, Enter, Scan, AnyReady;
      ReadyIsSized();
      NextKeeps(sys, Worker);
      match pc {
        case Top => EnterSection();
        case Asleep(woken) => if woken { EnterSection(); }
        case Encoding(i, w, h, linesize) =>
          Encode(i, Frame(w, h, linesize, local[..linesize * h]));
          TakeNext(i + 1);
        case Exited =>
      }
    }

    ghost method ReadyIsSized()
      requires Valid()
      ensures Sized() && (pc.Encoding? ==> pc.i < |captures| && pc.linesize * pc.h <= local.Length)
    {
      hide LaneInv;
      InBuffers(sys, 0);
      forall i | 0 <= i < |captures| && captures[i].ready
        ensures captures[i].linesize * captures[i].h <= captures[i].latestFrame.Length
      {
        InBuffers(sys, i);
        assert sys.lanes[i].cap == captures[i].View();
      }
    }

    /** The check under the lock: leave, wait, or pass over the captures. */
    method EnterSection()
      requires Valid() && Sized()
      modifies this, captures, local
      ensures Tied() && (local == old(local) || fresh(local))
      ensures sys == Enter(old(sys))
    {
      var any := AnyCaptureReady();
      if !running {
        pc := Exited;
        sys := sys.(pc := Exited);
      } else if !any {
        pc := Asleep(false);
        sys := sys.(pc := Asleep(false));
      } else {
        TakeNext(0);
      }
    }

    method Encode(i: nat, f: Frame)
      requires Tied() && i < |captures|
      modifies this`encoded, this`sys
      ensures Tied() && (old(Sized()) ==> Sized())
      ensures sys == old(sys).(lanes := old(sys).lanes[i := old(sys).lanes[i].(encoded := old(sys).lanes[i].encoded + [f])])
    {
      encoded := encoded[i := encoded[i] + [f]];
      sys := sys.(lanes := sys.lanes[i := sys.lanes[i].(encoded := sys.lanes[i].encoded + [f])]);
    }

    method TakeNext(from: nat)
      requires Tied() && Sized() && from <= |captures|
      modifies this`local, this`pc, this`sys, captures, local
      ensures Tied() && (local == old(local) || fresh(local))
      ensures sys == Scan(old(sys), from)
    {
      for i := from to |captures|
        invariant Tied() && Sized() && sys == old(sys) && local == old(local)
        invariant Scan(sys, i) == Scan(sys, from)
      {
        assert sys.lanes[i].cap == captures[i].View();
        if captures[i].ready {
          Take(i);
          return;
        }
      }
      pc := Top;
      sys := sys.(pc := Top);
    }

    method Take(i: nat)
      requires Tied() && Sized() && i < |captures| && captures[i].ready
      modifies this`local, this`pc, this`sys, captures[i], local
      ensures Tied() && (local == old(local) || fresh(local))
      ensures sys == TakeFrom(old(sys), i)
    {
      hide Inv, Scan, Enter, Overwrite, AnyReady, Cut;
      var cap := captures[i];
      assert sys.lanes[i].cap == cap.View();
      ghost var next := TakeFrom(sys, i);
      CopyOut(i);
      cap.ready := false;
      pc := Encoding(i, cap.w, cap.h, cap.linesize);
      sys := next;
    }

    method CopyOut(i: nat)
      requires Tied() && Sized() && i < |captures| && captures[i].ready
      modifies this`local, this`sys, local
      ensures Tied() && (local == old(local) || fresh(local))
      ensures sys == old(sys).(local := Overwrite(old(sys).local, Content(old(sys).lanes[i].cap).bytes))
    {
      hide Inv, Scan, Enter, Overwrite, AnyReady;
      var cap := captures[i];
      assert sys.lanes[i].cap == cap.View();
      local := CopyInto(local, cap.latestFrame, cap.linesize * cap.h);
      assert Separate();
      sys := sys.(local := local[..]);
    }
  }
}
