/** What a track guarantees over any sequence of callbacks. */
module AudioRuns {
  import opened Common
  import opened Audio
  import opened AudioTrack

  datatype Callback = Callback(muted: bool, audio: Option<Audio>)

  predicate Heard(cb: Callback) { !cb.muted && cb.audio.Some? }

  /** A callback that fits the buffer. */
  predicate Fits(cb: Callback, shape: Shape) {
    Heard(cb) ==> WellShaped(cb.audio.value, shape.channels) && cb.audio.value.frames * shape.channels <= Capacity(shape)
  }

  predicate AllFit(cbs: seq<Callback>, shape: Shape) {
    forall i :: 0 <= i < |cbs| ==> Fits(cbs[i], shape)
  }

  function Samples(cb: Callback, shape: Shape): (r: seq<real>)
    requires Fits(cb, shape)
    ensures |r| <= Capacity(shape)
  {
    if Heard(cb) then Interleaved(cb.audio.value, shape.channels, cb.audio.value.frames) else []
  }

  function Step(s: Stream, cb: Callback, shape: Shape): Stream
    requires Fits(cb, shape)
  {
    if Heard(cb) then Push(s, Samples(cb, shape), Capacity(shape), Needed(shape)) else s
  }

  function Run(cbs: seq<Callback>, shape: Shape): Stream
    requires AllFit(cbs, shape)
  {
    if cbs == [] then Stream([], []) else Step(Run(cbs[..|cbs| - 1], shape), cbs[|cbs| - 1], shape)
  }

  /** Everything that was captured, interleaved, in order. */
  function Input(cbs: seq<Callback>, shape: Shape): seq<real>
    requires AllFit(cbs, shape)
  {
    if cbs == [] then [] else Input(cbs[..|cbs| - 1], shape) + Samples(cbs[|cbs| - 1], shape)
  }

  function Flatten(log: seq<Chunk>): seq<real> {
    if log == [] then [] else Flatten(log[..|log| - 1]) + log[|log| - 1].samples
  }

  lemma FlattenAppended(log: seq<Chunk>, c: Chunk)
    ensures Flatten(log + [c]) == Flatten(log) + c.samples
  {
    assert (log + [c])[..|log|] == log;
  }

  /** All that ever came in: what left, then what is still there. */
  function Total(s: Stream): seq<real> { Flatten(s.log) + s.contents }

  lemma EmitKeepsTotal(log: seq<Chunk>, c: Chunk, contents: seq<real>, rest: seq<real>)
    requires contents == c.samples + rest
    ensures Total(Stream(log + [c], rest)) == Total(Stream(log, contents))
  {
    hide Flatten;
    FlattenAppended(log, c);
  }

  lemma {:induction false} DrainKeepsTotal(s: Stream, needed: nat)
    ensures Total(Drain(s, needed)) == Total(s)
    decreases |s.contents|
  {
    hide Total;
    if s.contents != [] && |s.contents| >= needed {
      var block := Emitted(s.contents[..needed]);
      EmitKeepsTotal(s.log, block, s.contents, s.contents[needed..]);
      if needed > 0 {
        DrainKeepsTotal(Stream(s.log + [block], s.contents[needed..]), needed);
      }
    }
  }

  lemma PushKeepsTotal(s: Stream, input: seq<real>, capacity: nat, needed: nat)
    requires |input| <= capacity
    ensures Total(Push(s, input, capacity, needed)) == Total(s) + input
  {
    hide Drain, Flatten;
    var drop := |s.contents| + |input| - capacity;
    if drop > 0 {
      EmitKeepsTotal(s.log, Dropped(s.contents[..drop]), s.contents, s.contents[drop..]);
    }
    var s1 := MakeRoom(s, |input|, capacity);
    DrainKeepsTotal(s1.(contents := s1.contents + input), needed);
  }

  /** Main result: nothing is lost, doubled or reordered. What was emitted and what was dropped, in order,
      followed by the buffer, is everything that was captured. */
  lemma {:induction false} StreamIsConserved(cbs: seq<Callback>, shape: Shape)
    requires AllFit(cbs, shape)
    ensures Flatten(Run(cbs, shape).log) + Run(cbs, shape).contents == Input(cbs, shape)
  {
    hide Push, Capacity, Needed;
    if cbs != [] {
      var before, cb := cbs[..|cbs| - 1], cbs[|cbs| - 1];
      StreamIsConserved(before, shape);
      var s := Run(before, shape);
      if Heard(cb) {
        PushKeepsTotal(s, Samples(cb, shape), Capacity(shape), Needed(shape));
      } else {
        assert Input(cbs, shape) == Input(before, shape);
      }
    }
  }

  // ----- sizes -----

  /** Every emitted block has the full size. */
  ghost predicate FullBlocks(log: seq<Chunk>, needed: nat) {
    forall i :: 0 <= i < |log| && log[i].Emitted? ==> |log[i].samples| == needed
  }

  predicate NothingDropped(log: seq<Chunk>) {
    forall i :: 0 <= i < |log| ==> log[i].Emitted?
  }

  lemma {:induction false} DrainSizes(s: Stream, needed: nat)
    requires FullBlocks(s.log, needed)
    ensures FullBlocks(Drain(s, needed).log, needed)
    ensures NothingDropped(s.log) ==> NothingDropped(Drain(s, needed).log)
    ensures needed > 0 ==> |Drain(s, needed).contents| < needed
    ensures |Drain(s, needed).contents| <= |s.contents|
    decreases |s.contents|
  {
    if s.contents != [] && |s.contents| >= needed && needed > 0 {
      DrainSizes(Stream(s.log + [Emitted(s.contents[..needed])], s.contents[needed..]), needed);
    }
  }

  /** Every block the encoder gets is exactly 20 ms, and less than that stays behind. */
  lemma {:induction false} BlocksAreExact(cbs: seq<Callback>, shape: Shape)
    requires AllFit(cbs, shape)
    ensures FullBlocks(Run(cbs, shape).log, Needed(shape))
    ensures Needed(shape) > 0 ==> |Run(cbs, shape).contents| < Needed(shape)
  {
    hide Drain, Needed, Capacity;
    if cbs != [] {
      var before, cb := cbs[..|cbs| - 1], cbs[|cbs| - 1];
      BlocksAreExact(before, shape);
      if Heard(cb) {
        var s1 := MakeRoom(Run(before, shape), |Samples(cb, shape)|, Capacity(shape));
        DrainSizes(s1.(contents := s1.contents + Samples(cb, shape)), Needed(shape));
      }
    }
  }

  /** If every callback leaves room for one block, nothing is ever dropped. */
  lemma {:induction false} NothingIsDropped(cbs: seq<Callback>, shape: Shape)
    requires AllFit(cbs, shape) && Needed(shape) > 0
    requires forall i :: 0 <= i < |cbs| ==> |Samples(cbs[i], shape)| + Needed(shape) <= Capacity(shape)
    ensures NothingDropped(Run(cbs, shape).log)
  {
    hide Drain, Needed, Capacity;
    if cbs != [] {
      var before, cb := cbs[..|cbs| - 1], cbs[|cbs| - 1];
      NothingIsDropped(before, shape);
      BlocksAreExact(before, shape);
      if Heard(cb) {
        var s := Run(before, shape);
        assert MakeRoom(s, |Samples(cb, shape)|, Capacity(shape)) == s;
        DrainSizes(s.(contents := s.contents + Samples(cb, shape)), Needed(shape));
      }
    }
  }

  lemma DivisionIsUnique(q: nat, r: nat, m: nat)
    requires r < m
    ensures (q * m + r) % m == r
  {
    MultipleBelow(q, (q * m + r) / m, m);
  }

  lemma MultipleBelow(a: nat, b: nat, m: nat)
    ensures a < b ==> a * m + m <= b * m
    ensures b < a ==> b * m + m <= a * m
  {
    ProductGrows(a + 1, b, m);
    ProductGrows(b + 1, a, m);
  }

  lemma {:induction false} FlattenOfBlocks(log: seq<Chunk>, needed: nat)
    requires FullBlocks(log, needed) && NothingDropped(log)
    ensures |Flatten(log)| == Times(|log|, needed)
  {
    hide Times;
    OneMore(0, needed);
    if log != [] {
      OneMore(|log| - 1, needed);
      FlattenOfBlocks(log[..|log| - 1], needed);
    }
  }

  lemma OneMore(n: nat, m: nat)
    ensures Times(n + 1, m) == Times(n, m) + m && Times(0, m) == 0
  {}

  /** While nothing was dropped, what waits is the remainder of all that was captured by the block size. */
  lemma WaitingIsRemainder(cbs: seq<Callback>, shape: Shape)
    requires AllFit(cbs, shape) && Needed(shape) > 0 && NothingDropped(Run(cbs, shape).log)
    ensures |Run(cbs, shape).contents| == |Input(cbs, shape)| % Needed(shape)
  {
    hide Run, Input, Flatten, Needed, FullBlocks;
    var s := Run(cbs, shape);
    StreamIsConserved(cbs, shape);
    BlocksAreExact(cbs, shape);
    FlattenOfBlocks(s.log, Needed(shape));
    DivisionIsUnique(|s.log|, |s.contents|, Needed(shape));
  }

  lemma {:induction false} DrainKeepsLog(s: Stream, needed: nat)
    ensures s.log <= Drain(s, needed).log
    ensures NothingDropped(Drain(s, needed).log) <==> NothingDropped(s.log)
    decreases |s.contents|
  {
    if s.contents != [] && |s.contents| >= needed {
      var s' := Stream(s.log + [Emitted(s.contents[..needed])], s.contents[needed..]);
      assert s'.log[..|s.log|] == s.log;
      assert NothingDropped(s'.log) <==> NothingDropped(s.log);
      if needed > 0 {
        DrainKeepsLog(s', needed);
      }
    }
  }

  /** Callback `cb` finds room beside the remainder of what came before it. */
  predicate HasRoom(before: seq<Callback>, cb: Callback, shape: Shape)
    requires AllFit(before, shape) && Fits(cb, shape) && Needed(shape) > 0
  {
    |Input(before, shape)| % Needed(shape) + |Samples(cb, shape)| <= Capacity(shape)
  }

  lemma PushDropsExactly(s: Stream, input: seq<real>, capacity: nat, needed: nat)
    requires |input| <= capacity && |s.contents| <= capacity
    ensures NothingDropped(Push(s, input, capacity, needed).log) <==>
      (NothingDropped(s.log) && |s.contents| + |input| <= capacity)
  {
    hide Drain;
    DropsExactly(s, |input|, capacity);
    var s1 := MakeRoom(s, |input|, capacity);
    DrainKeepsLog(s1.(contents := s1.contents + input), needed);
    if s1 != s {
      assert s1.log[|s.log|].Dropped?;
    }
  }

  /** Main result: nothing is ever dropped if and only if every callback finds room beside the remainder, by
      the block size, of all that was captured before it. */
  lemma {:induction false} NothingIsDroppedExactly(cbs: seq<Callback>, shape: Shape)
    requires AllFit(cbs, shape) && Needed(shape) > 0
    ensures NothingDropped(Run(cbs, shape).log) <==>
      forall i :: 0 <= i < |cbs| && Heard(cbs[i]) ==> HasRoom(cbs[..i], cbs[i], shape)
  {
    hide Push, Input, Needed, Capacity, Samples, NothingDropped, HasRoom;
    if cbs == [] {
      EmptyLogDropsNothing();
    } else {
      var n := |cbs| - 1;
      var before, cb := cbs[..n], cbs[n];
      NothingIsDroppedExactly(before, shape);
      assert forall i :: 0 <= i < n ==> before[..i] == cbs[..i];
      if Heard(cb) {
        CallbackDropsExactly(before, cb, shape);
      }
      assert (forall i :: 0 <= i < |cbs| && Heard(cbs[i]) ==> HasRoom(cbs[..i], cbs[i], shape)) <==>
        ((forall i :: 0 <= i < n && Heard(before[i]) ==> HasRoom(before[..i], before[i], shape))
         && (Heard(cb) ==> HasRoom(before, cb, shape)));
    }
  }

  lemma EmptyLogDropsNothing()
    ensures NothingDropped([])
  {}

  lemma CallbackDropsExactly(before: seq<Callback>, cb: Callback, shape: Shape)
    requires AllFit(before, shape) && Fits(cb, shape) && Needed(shape) > 0 && Heard(cb)
    ensures NothingDropped(Step(Run(before, shape), cb, shape).log) <==>
      (NothingDropped(Run(before, shape).log) && HasRoom(before, cb, shape))
  {
    hide Run, Push, Input, Needed, Capacity, Samples, NothingDropped;
    BlocksAreExact(before, shape);
    BlockFitsBuffer(shape);
    PushDropsExactly(Run(before, shape), Samples(cb, shape), Capacity(shape), Needed(shape));
    if NothingDropped(Run(before, shape).log) {
      WaitingIsRemainder(before, shape);
    }
  }

  lemma BlockFitsBuffer(shape: Shape)
    ensures Needed(shape) <= Capacity(shape)
  {
    NineBlocksAreSafe(shape, 0);
  }

  /** A block is as many whole frames as fit 20 ms, all channels of each, and the buffer as many as fit 200 ms. */
  lemma BlockIsTwentyMilliseconds(shape: Shape) returns (block: nat, buffer: nat)
    ensures Needed(shape) == block * shape.channels && block * 1000 <= shape.rate * 20 < (block + 1) * 1000
    ensures Capacity(shape) == buffer * shape.channels && buffer * 1000 <= shape.rate * 200 < (buffer + 1) * 1000
  {
    block := shape.rate * 20 / 1000;
    buffer := shape.rate * 200 / 1000;
  }

  /** The buffer holds ten blocks, so callbacks of up to nine blocks, 180 ms, never cost a sample. */
  lemma NineBlocksAreSafe(shape: Shape, frames: nat)
    requires frames <= 9 * (shape.rate * 20 / 1000)
    ensures frames * shape.channels + Needed(shape) <= Capacity(shape)
  {
    assert frames + shape.rate * 20 / 1000 <= shape.rate * 200 / 1000;
    ProductGrows(frames + shape.rate * 20 / 1000, shape.rate * 200 / 1000, shape.channels);
  }

  /** A callback costs old samples exactly if it does not fit beside what is waiting, and never more than
      there are, exactly because it fits the buffer. */
  lemma DropsExactly(s: Stream, add: nat, capacity: nat)
    requires |s.contents| <= capacity
    ensures |s.contents| + add - capacity <= |s.contents| <==> add <= capacity
    ensures add <= capacity ==> (MakeRoom(s, add, capacity) != s <==> |s.contents| + add > capacity)
    ensures add <= capacity ==> var s' := MakeRoom(s, add, capacity);
              s'.contents == s.contents[|s.contents| - |s'.contents|..]
              && (s' != s ==> |s'.contents| + add == capacity)
  {}

  // ----- channels -----

  function Times(q: int, channels: int): int { q * channels }

  /** `n` samples are a whole number of frames. */
  ghost predicate WholeFrames(n: int, channels: nat) {
    exists q: nat :: Times(q, channels) == n
  }

  lemma WholeFramesSum(a: int, b: int, channels: nat)
    requires WholeFrames(a, channels) && WholeFrames(b, channels)
    ensures WholeFrames(a + b, channels)
  {
    var p: nat :| Times(p, channels) == a;
    var q: nat :| Times(q, channels) == b;
    assert Times(p + q, channels) == a + b;
  }

  lemma WholeFramesDifference(a: int, b: int, channels: nat)
    requires WholeFrames(a, channels) && WholeFrames(b, channels) && a >= b && channels > 0
    ensures WholeFrames(a - b, channels)
  {
    var p: nat :| Times(p, channels) == a;
    var q: nat :| Times(q, channels) == b;
    ProductGrows(p + 1, q, channels);
    assert Times(p - q, channels) == a - b;
  }

  ghost predicate Aligned(s: Stream, channels: nat) {
    && WholeFrames(|s.contents|, channels)
    && forall i :: 0 <= i < |s.log| ==> WholeFrames(|s.log[i].samples|, channels)
  }

  lemma {:induction false} DrainKeepsAligned(s: Stream, needed: nat, channels: nat)
    requires Aligned(s, channels) && WholeFrames(needed, channels) && channels > 0
    ensures Aligned(Drain(s, needed), channels)
    decreases |s.contents|
  {
    hide WholeFrames;
    if s.contents != [] && |s.contents| >= needed {
      WholeFramesDifference(|s.contents|, needed, channels);
      if needed > 0 {
        DrainKeepsAligned(Stream(s.log + [Emitted(s.contents[..needed])], s.contents[needed..]), needed, channels);
      }
    }
  }

  lemma PushKeepsAligned(s: Stream, input: seq<real>, shape: Shape)
    requires Proper(shape) && |input| <= Capacity(shape)
    requires Aligned(s, shape.channels) && WholeFrames(|input|, shape.channels)
    ensures Aligned(Push(s, input, Capacity(shape), Needed(shape)), shape.channels)
  {
    hide WholeFrames, Drain, Capacity, Needed;
    SizesAreWholeFrames(shape);
    WholeFramesSum(|s.contents|, |input|, shape.channels);
    var drop := |s.contents| + |input| - Capacity(shape);
    if drop > 0 {
      WholeFramesDifference(|s.contents| + |input|, Capacity(shape), shape.channels);
      WholeFramesDifference(|s.contents|, drop, shape.channels);
    }
    var s1 := MakeRoom(s, |input|, Capacity(shape));
    WholeFramesSum(|s1.contents|, |input|, shape.channels);
    DrainKeepsAligned(s1.(contents := s1.contents + input), Needed(shape), shape.channels);
  }

  lemma SizesAreWholeFrames(shape: Shape)
    ensures WholeFrames(Capacity(shape), shape.channels) && WholeFrames(Needed(shape), shape.channels)
  {
    assert Times(shape.rate * 200 / 1000, shape.channels) == Capacity(shape);
    assert Times(shape.rate * 20 / 1000, shape.channels) == Needed(shape);
  }

  lemma SamplesAreWholeFrames(cb: Callback, shape: Shape)
    requires Fits(cb, shape)
    ensures WholeFrames(|Samples(cb, shape)|, shape.channels)
  {
    assert Times(if Heard(cb) then cb.audio.value.frames else 0, shape.channels) == |Samples(cb, shape)|;
  }

  /** Whatever is emitted, dropped or kept is whole frames. */
  lemma {:induction false} RunIsAligned(cbs: seq<Callback>, shape: Shape)
    requires AllFit(cbs, shape) && Proper(shape)
    ensures Aligned(Run(cbs, shape), shape.channels)
    ensures WholeFrames(|Input(cbs, shape)|, shape.channels)
  {
    hide Push, WholeFrames, Samples, Capacity, Needed;
    if cbs == [] {
      NoFrames(shape.channels);
    } else {
      var before, cb := cbs[..|cbs| - 1], cbs[|cbs| - 1];
      RunIsAligned(before, shape);
      SamplesAreWholeFrames(cb, shape);
      PushKeepsAligned(Run(before, shape), Samples(cb, shape), shape);
      WholeFramesSum(|Input(before, shape)|, |Samples(cb, shape)|, shape.channels);
    }
  }

  lemma NoFrames(channels: nat)
    ensures WholeFrames(0, channels)
  {
    assert Times(0, channels) == 0;
  }

  /** Sample `n` of all that was captured is the sample of channel `c` in frame `f` of callback `b`. */
  ghost predicate Captured(cbs: seq<Callback>, shape: Shape, n: nat, c: nat, b: nat, f: nat)
    requires AllFit(cbs, shape) && n < |Input(cbs, shape)|
  {
    && b < |cbs| && Heard(cbs[b]) && c < shape.channels && f < cbs[b].audio.value.frames
    && n == |Input(cbs[..b], shape)| + f * shape.channels + c
    && Input(cbs, shape)[n] == Sample(cbs[b].audio.value.planes[c], f)
  }

  function Slot(q: nat, c: nat, channels: nat): nat { q * channels + c }

  /** The sample at slot `c` of a frame of all that was captured is one of channel `c`. */
  lemma {:induction false} InputAt(cbs: seq<Callback>, shape: Shape, q: nat, c: nat) returns (b: nat, f: nat)
    requires AllFit(cbs, shape) && Proper(shape) && c < shape.channels && Slot(q, c, shape.channels) < |Input(cbs, shape)|
    ensures Captured(cbs, shape, Slot(q, c, shape.channels), c, b, f)
  {
    hide WholeFrames, Capacity, Samples, Captured;
    var before := cbs[..|cbs| - 1];
    if Slot(q, c, shape.channels) < |Input(before, shape)| {
      b, f := InputAt(before, shape, q, c);
      CapturedStays(cbs, shape, Slot(q, c, shape.channels), c, b, f);
    } else {
      b := |cbs| - 1;
      f := LastInputAt(cbs, shape, q, c);
    }
  }

  lemma CapturedStays(cbs: seq<Callback>, shape: Shape, n: nat, c: nat, b: nat, f: nat)
    requires AllFit(cbs, shape) && cbs != [] && n < |Input(cbs[..|cbs| - 1], shape)|
    requires Captured(cbs[..|cbs| - 1], shape, n, c, b, f)
    ensures n < |Input(cbs, shape)| && Captured(cbs, shape, n, c, b, f)
  {
    hide Samples;
    assert cbs[..b] == cbs[..|cbs| - 1][..b];
  }

  lemma LastInputAt(cbs: seq<Callback>, shape: Shape, q: nat, c: nat) returns (f: nat)
    requires AllFit(cbs, shape) && Proper(shape) && cbs != [] && c < shape.channels
    requires |Input(cbs[..|cbs| - 1], shape)| <= Slot(q, c, shape.channels) < |Input(cbs, shape)|
    ensures Captured(cbs, shape, Slot(q, c, shape.channels), c, |cbs| - 1, f)
  {
    hide WholeFrames, Capacity, Interleaved;
    var before, cb := cbs[..|cbs| - 1], cbs[|cbs| - 1];
    RunIsAligned(before, shape);
    f := FrameIn(q, c, shape.channels, |Input(before, shape)|, |Samples(cb, shape)|, if Heard(cb) then cb.audio.value.frames else 0);
    InterleavedAt(cb.audio.value, shape.channels, cb.audio.value.frames, f, c);
  }

  /** Which frame of a callback a position falls into. */
  lemma FrameIn(q: nat, c: nat, channels: nat, start: nat, size: nat, frames: nat) returns (f: nat)
    requires WholeFrames(start, channels) && size == frames * channels && c < channels
    requires start <= q * channels + c < start + size
    ensures f < frames && q * channels + c == start + f * channels + c
  {
    var p: nat :| Times(p, channels) == start;
    ProductGrows(q + 1, p, channels);
    ProductGrows(p + frames, q, channels);
    f := q - p;
  }

  lemma {:induction false} FlattenIsWholeFrames(log: seq<Chunk>, channels: nat)
    requires forall i :: 0 <= i < |log| ==> WholeFrames(|log[i].samples|, channels)
    ensures WholeFrames(|Flatten(log)|, channels)
  {
    hide WholeFrames;
    if log == [] {
      NoFrames(channels);
    } else {
      FlattenIsWholeFrames(log[..|log| - 1], channels);
      WholeFramesSum(|Flatten(log[..|log| - 1])|, |log[|log| - 1].samples|, channels);
    }
  }

  /** Main result: buffer slot `q * channels + c` always holds a sample of channel `c`, after any number of
      drops and drains. */
  lemma SlotsKeepTheirChannel(cbs: seq<Callback>, shape: Shape, q: nat, c: nat) returns (n: nat, b: nat, f: nat)
    requires AllFit(cbs, shape) && Proper(shape) && c < shape.channels
    requires Slot(q, c, shape.channels) < |Run(cbs, shape).contents|
    ensures n < |Input(cbs, shape)| && Captured(cbs, shape, n, c, b, f)
    ensures n == |Flatten(Run(cbs, shape).log)| + Slot(q, c, shape.channels)
    ensures Run(cbs, shape).contents[Slot(q, c, shape.channels)] == Input(cbs, shape)[n]
  {
    hide Run, Input, Captured, WholeFrames, Flatten;
    var s := Run(cbs, shape);
    StreamIsConserved(cbs, shape);
    RunIsAligned(cbs, shape);
    FlattenIsWholeFrames(s.log, shape.channels);
    var k := Slot(q, c, shape.channels);
    assert (Flatten(s.log) + s.contents)[|Flatten(s.log)| + k] == s.contents[k];
    var q' := FrameAt(|Flatten(s.log)|, q, shape.channels);
    n := |Flatten(s.log)| + k;
    b, f := InputAt(cbs, shape, q', c);
  }

  lemma FrameAt(start: nat, q: nat, channels: nat) returns (q': nat)
    requires WholeFrames(start, channels)
    ensures q' * channels == start + q * channels
  {
    var p: nat :| Times(p, channels) == start;
    q' := p + q;
  }

  /** And so does slot `q * channels + c` of every block that was emitted. */
  lemma BlocksKeepTheirChannel(cbs: seq<Callback>, shape: Shape, m: nat, q: nat, c: nat) returns (n: nat, b: nat, f: nat)
    requires AllFit(cbs, shape) && Proper(shape) && c < shape.channels && m < |Run(cbs, shape).log|
    requires Slot(q, c, shape.channels) < |Run(cbs, shape).log[m].samples|
    ensures n < |Input(cbs, shape)| && Captured(cbs, shape, n, c, b, f)
    ensures n == |Flatten(Run(cbs, shape).log[..m])| + Slot(q, c, shape.channels)
    ensures Run(cbs, shape).log[m].samples[Slot(q, c, shape.channels)] == Input(cbs, shape)[n]
  {
    hide Run, Input, Captured, WholeFrames, Flatten;
    var s := Run(cbs, shape);
    StreamIsConserved(cbs, shape);
    RunIsAligned(cbs, shape);
    FlattenIsWholeFrames(s.log[..m], shape.channels);
    var k := Slot(q, c, shape.channels);
    FlattenAt(s.log, m, k);
    n := |Flatten(s.log[..m])| + k;
    assert (Flatten(s.log) + s.contents)[n] == s.log[m].samples[k];
    var q' := FrameAt(|Flatten(s.log[..m])|, q, shape.channels);
    b, f := InputAt(cbs, shape, q', c);
  }

  lemma {:induction false} FlattenAt(log: seq<Chunk>, m: nat, k: nat)
    requires m < |log| && k < |log[m].samples|
    ensures |Flatten(log[..m])| + k < |Flatten(log)|
    ensures Flatten(log)[|Flatten(log[..m])| + k] == log[m].samples[k]
  {
    var last := |log| - 1;
    if m < last {
      FlattenAt(log[..last], m, k);
      assert log[..last][..m] == log[..m];
    }
  }
}
