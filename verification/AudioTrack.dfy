/** One audio track of the sender (src/audio.c:65-121, 123-139, 199-201): callbacks of any size go into a
    bounded buffer, blocks of 20 ms leave it. */
module AudioTrack {
  import opened Common
  import opened Audio

  /** What left the buffer: a block for the encoder, or old samples that made room. */
  datatype Chunk = Emitted(samples: seq<real>) | Dropped(samples: seq<real>)

  datatype Stream = Stream(log: seq<Chunk>, contents: seq<real>)

  datatype Shape = Shape(channels: nat, rate: nat)

  predicate Proper(shape: Shape) { shape.channels > 0 && shape.rate > 0 }

  /** Samples in one block, and in the buffer of 200 ms. */
  function Needed(shape: Shape): nat { shape.rate * 20 / 1000 * shape.channels }

  function Capacity(shape: Shape): nat { shape.rate * 200 / 1000 * shape.channels }

  /** Blocks leave while there are enough samples, and as long as that changes anything. */
  function Drain(s: Stream, needed: nat): Stream
    decreases |s.contents|
  {
    if s.contents == [] || |s.contents| < needed then s
    else
      var s' := Stream(s.log + [Emitted(s.contents[..needed])], s.contents[needed..]);
      if needed == 0 then s' else Drain(s', needed)
  }

  function MakeRoom(s: Stream, add: nat, capacity: nat): Stream
    requires add <= capacity
  {
    var drop := |s.contents| + add - capacity;
    if drop > 0 then Stream(s.log + [Dropped(s.contents[..drop])], s.contents[drop..]) else s
  }

  function Push(s: Stream, input: seq<real>, capacity: nat, needed: nat): Stream
    requires |input| <= capacity
  {
    var s1 := MakeRoom(s, |input|, capacity);
    Drain(s1.(contents := s1.contents + input), needed)
  }

  class SenderTrack {
    const shape: Shape
    var buf: array<real>
    var fill: nat
    var log: seq<Chunk>

    ghost predicate Valid()
      reads this, buf
    {
      Proper(shape) && buf.Length == Capacity(shape) && fill <= buf.Length
    }

    ghost function S(): Stream
      reads this, buf
      requires Valid()
    {
      Stream(log, buf[..fill])
    }

    constructor (channels: int, rate: int)
      ensures Valid() && fresh(buf) && S() == Stream([], [])
      ensures shape == Shape(if channels <= 0 then 2 else channels, if rate <= 0 then 48_000 else rate)
    {
      var sh := Shape(if channels <= 0 then 2 else channels, if rate <= 0 then 48_000 else rate);
      shape := sh;
      buf := new real[sh.rate * 200 / 1000 * sh.channels];
      fill, log := 0, [];
    }

    /** The move to the front that forgets the first `k` samples. */
    method Forget(k: nat)
      requires Valid() && k <= fill
      modifies this`fill, buf
      ensures Valid() && buf[..fill] == old(buf[k..fill])
    {
      for i := 0 to fill - k
        invariant fill == old(fill) && forall j :: 0 <= j < i ==> buf[j] == old(buf[k + j])
        invariant forall j :: i <= j < fill ==> buf[j] == old(buf[j])
      {
        buf[i] := buf[i + k];
      }
      fill := fill - k;
    }

    method EncodeAndSend()
      requires Valid()
      modifies this`fill, this`log, buf
      ensures Valid()
      ensures S() == if |old(S()).contents| < Needed(shape) then old(S())
                     else Stream(old(S()).log + [Emitted(old(S()).contents[..Needed(shape)])], old(S()).contents[Needed(shape)..])
    {
      hide Needed, Capacity;
      var needed := Needed(shape);
      if fill < needed {
        return;
      }
      ghost var was := buf[..fill];
      assert buf[..needed] == was[..needed] && buf[needed..fill] == was[needed..];
      log := log + [Emitted(buf[..needed])];
      Forget(needed);
    }

    method DropOldest(add: nat)
      requires Valid() && add <= buf.Length
      modifies this`fill, this`log, buf
      ensures Valid() && S() == MakeRoom(old(S()), add, Capacity(shape)) && fill + add <= buf.Length
    {
      hide Needed, Capacity;
      if fill + add > buf.Length {
        var drop := fill + add - buf.Length;
        ghost var was := buf[..fill];
        assert buf[..drop] == was[..drop] && buf[drop..fill] == was[drop..];
        log := log + [Dropped(buf[..drop])];
        Forget(drop);
      }
    }

    method Interleave(a: Audio)
      requires Valid() && WellShaped(a, shape.channels) && fill + a.frames * shape.channels <= buf.Length
      modifies this`fill, buf
      ensures Valid() && S() == Stream(log, old(buf[..fill]) + Interleaved(a, shape.channels, a.frames))
    {
      for f := 0 to a.frames
        invariant fill == old(fill) && f * shape.channels <= a.frames * shape.channels
        invariant buf[..fill + f * shape.channels] == old(buf[..fill]) + Interleaved(a, shape.channels, f)
      {
        NextPlane(f, shape.channels, a.frames);
        WriteFrame(a, f, fill + f * shape.channels);
      }
      fill := fill + a.frames * shape.channels;
    }

    method WriteFrame(a: Audio, f: nat, dst: nat)
      requires WellShaped(a, shape.channels) && f < a.frames && dst + shape.channels <= buf.Length
      modifies buf
      ensures buf[..dst + shape.channels] == old(buf[..dst]) + OneFrame(a, shape.channels, f)
    {
      for c := 0 to shape.channels
        invariant buf[..dst] == old(buf[..dst])
        invariant forall d :: 0 <= d < c ==> buf[dst + d] == Sample(a.planes[d], f)
      {
        var plane := a.planes[c];
        buf[dst + c] := if plane.Some? then plane.value[f] else 0.0;
      }
    }

    method DrainBlocks()
      requires Valid()
      modifies this`fill, this`log, buf
      ensures Valid() && S() == Drain(old(S()), Needed(shape))
    {
      while fill > 0
        invariant Valid() && Drain(S(), Needed(shape)) == Drain(old(S()), Needed(shape))
        decreases fill
      {
        var before := fill;
        EncodeAndSend();
        if fill == before {
          break;
        }
      }
    }

    /** `on_audio_capture`. A callback longer than the whole buffer would be written past its end. */
    method OnAudioCapture(muted: bool, audio: Option<Audio>)
      requires Valid()
      requires !muted && audio.Some? ==> WellShaped(audio.value, shape.channels) && audio.value.frames * shape.channels <= Capacity(shape)
      modifies this`fill, this`log, buf
      ensures Valid()
      ensures S() == if muted || audio.None? then old(S())
                     else Push(old(S()), Interleaved(audio.value, shape.channels, audio.value.frames), Capacity(shape), Needed(shape))
    {
      if muted || audio.None? {
        return;
      }
      DropOldest(audio.value.frames * shape.channels);
      Interleave(audio.value);
      DrainBlocks();
    }
  }
}
