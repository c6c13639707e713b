/** The audio re-chunker and its inverse (src/audio.c:65-121, 199-201, 347-356). Samples are copied, never
    computed with, so their rounding does not matter. */
module Audio {
  import opened Common

  /** Position of channel `c` in frame `f` of interleaved audio. */
  lemma SlotInRange(f: nat, frames: nat, c: nat, channels: nat)
    requires f < frames && c < channels
    ensures f * channels + c < frames * channels
  {
    assert (f + 1) * channels <= frames * channels;
  }

  // ----- interleaving and its inverse -----

  /** A channel's plane; a missing one is silent. */
  type Plane = Option<seq<real>>

  datatype Audio = Audio(planes: seq<Plane>, frames: nat)

  /** Every plane that is there holds all the frames. */
  predicate WellShaped(a: Audio, channels: nat) {
    |a.planes| == channels && forall c :: 0 <= c < channels && a.planes[c].Some? ==> |a.planes[c].value| >= a.frames
  }

  function Sample(p: Plane, f: nat): real
    requires p.Some? ==> f < |p.value|
  {
    match p case None => 0.0 case Some(samples) => samples[f]
  }

  function OneFrame(a: Audio, channels: nat, f: nat): (r: seq<real>)
    requires WellShaped(a, channels) && f < a.frames
  {
    seq(channels, c requires 0 <= c < channels => Sample(a.planes[c], f))
  }

  /** The first `n` frames, channels interleaved. */
  function Interleaved(a: Audio, channels: nat, n: nat): (r: seq<real>)
    requires WellShaped(a, channels) && n <= a.frames
    ensures |r| == n * channels
  {
    if n == 0 then [] else Interleaved(a, channels, n - 1) + OneFrame(a, channels, n - 1)
  }

  lemma {:induction false} InterleavedAt(a: Audio, channels: nat, n: nat, f: nat, c: nat)
    requires WellShaped(a, channels) && f < n <= a.frames && c < channels
    ensures f * channels + c < n * channels
    ensures Interleaved(a, channels, n)[f * channels + c] == Sample(a.planes[c], f)
  {
    SlotInRange(f, n, c, channels);
    if f < n - 1 {
      InterleavedAt(a, channels, n - 1, f, c);
    }
  }

  /** Plane `c` of interleaved audio. */
  function PlaneOf(pcm: seq<real>, frames: nat, channels: nat, c: nat): (r: seq<real>)
    requires |pcm| == frames * channels && c < channels
    ensures |r| == frames
  {
    seq(frames, f requires 0 <= f < frames => SlotInRange(f, frames, c, channels); pcm[f * channels + c])
  }

  /** The first `n` planes, one after the other. */
  function Planar(pcm: seq<real>, frames: nat, channels: nat, n: nat): (r: seq<real>)
    requires |pcm| == frames * channels && n <= channels
    ensures |r| == n * frames
  {
    if n == 0 then [] else Planar(pcm, frames, channels, n - 1) + PlaneOf(pcm, frames, channels, n - 1)
  }

  /** The receiver's loop over one decoded packet. */
  method Deinterleave(pcm: array<real>, frames: nat, channels: nat) returns (out: array<real>)
    requires pcm.Length == frames * channels
    ensures fresh(out) && out[..] == Planar(pcm[..], frames, channels, channels)
  {
    hide PlaneOf;
    out := new real[frames * channels];
    for c := 0 to channels
      invariant c * frames <= out.Length && out[..c * frames] == Planar(pcm[..], frames, channels, c)
    {
      NextPlane(c, frames, channels);
      CopyPlane(pcm, frames, channels, c, out, c * frames);
    }
    assert out[..] == out[..channels * frames];
  }

  lemma NextPlane(c: nat, frames: nat, channels: nat)
    requires c < channels
    ensures c * frames + frames == (c + 1) * frames <= channels * frames
  {}

  method CopyPlane(pcm: array<real>, frames: nat, channels: nat, c: nat, out: array<real>, start: nat)
    requires pcm.Length == frames * channels && c < channels && start + frames <= out.Length && out != pcm
    modifies out
    ensures out[..start + frames] == old(out[..start]) + PlaneOf(pcm[..], frames, channels, c)
  {
    for f := 0 to frames
      invariant out[..start] == old(out[..start])
      invariant forall g :: 0 <= g < f ==> out[start + g] == PlaneOf(pcm[..], frames, channels, c)[g]
    {
      SlotInRange(f, frames, c, channels);
      out[start + f] := pcm[f * channels + c];
    }
  }

  /** Main result: taking a plane of interleaved audio gives back what the sender put in. */
  lemma DeinterleaveInvertsInterleave(a: Audio, channels: nat, c: nat)
    requires WellShaped(a, channels) && c < channels
    ensures PlaneOf(Interleaved(a, channels, a.frames), a.frames, channels, c)
         == match a.planes[c] case None => Silence(a.frames) case Some(samples) => samples[..a.frames]
  {
    var plane := PlaneOf(Interleaved(a, channels, a.frames), a.frames, channels, c);
    forall f | 0 <= f < a.frames ensures plane[f] == Sample(a.planes[c], f) {
      InterleavedAt(a, channels, a.frames, f, c);
    }
  }

  function Silence(frames: nat): seq<real> { seq(frames, _ => 0.0) }

  function Planes(pcm: seq<real>, frames: nat, channels: nat): seq<Plane>
    requires |pcm| == frames * channels
  {
    seq(channels, c requires 0 <= c < channels => Some(PlaneOf(pcm, frames, channels, c)))
  }

  /** And the other way round. */
  lemma InterleaveInvertsDeinterleave(pcm: seq<real>, frames: nat, channels: nat)
    requires |pcm| == frames * channels
    ensures Interleaved(Audio(Planes(pcm, frames, channels), frames), channels, frames) == pcm
  {
    var a := Audio(Planes(pcm, frames, channels), frames);
    var r := Interleaved(a, channels, frames);
    forall k | 0 <= k < |r| ensures r[k] == pcm[k] {
      SlotOf(k, frames, channels);
      InterleavedAt(a, channels, frames, k / channels, k % channels);
    }
  }

  lemma SlotOf(k: nat, frames: nat, channels: nat)
    requires k < frames * channels
    ensures channels > 0 && k / channels < frames && k == k / channels * channels + k % channels
  {
    assert channels > 0;
    ProductGrows(frames, k / channels, channels);
  }

  lemma ProductGrows(a: nat, b: nat, c: nat)
    ensures a <= b ==> a * c <= b * c
  {}
}
