/** What `TimeCorrector` does to the timestamps of a stream, packet by packet and over whole runs. */
module TimeCorrection {
  import opened Bytes

  const VIDEO: int := 1
  const AUDIO: int := 2
  const MAX_DELTA: int := 100
  const VIDEO_STEP: int := 40
  const AUDIO_STEP: int := 20

  /** The last timestamp seen, -1 before the first, and the last one given out. */
  datatype Track = Track(original: int, corrected: int)

  datatype State = State(video: Track, audio: Track)

  datatype Packet = Packet(kind: int, stamp: uint32, data: seq<byte>)

  const FRESH: State := State(Track(-1, 0), Track(-1, 0))

  predicate IsCodecHeader(p: Packet) {
    |p.data| > 1 && p.data[1] == 0
  }

  function Max0(n: int): (m: int) {
    if n < 0 then 0 else n
  }

  /** The step that is made for a gap in the input: the gap itself, unless it is too large. */
  function Gap(delta: int, step: int): int {
    if -MAX_DELTA < delta < MAX_DELTA then delta else step
  }

  function Advance(t: Track, time: int, step: int): Track {
    Track(time, Max0(t.corrected + Gap(time - t.original, step)))
  }

  /** The first video packet starts from its own time, or from the audio if that is far away. */
  function FirstVideo(audio: Track, time: uint32): Track {
    if audio.original == -1 then Track(time, time)
    else
      var delta := Signed32((audio.original - time) % TWO32);
      if delta <= -MAX_DELTA || delta >= MAX_DELTA then audio else Track(time, time)
  }

  function CorrectVideo(st: State, time: uint32): State {
    var t := if st.video.original == -1 then FirstVideo(st.audio, time) else st.video;
    st.(video := Advance(t, time, VIDEO_STEP))
  }

  function CorrectAudio(st: State, time: uint32): State {
    st.(audio := if st.audio.original == -1 then Track(time, time) else Advance(st.audio, time, AUDIO_STEP))
  }

  function Next(st: State, p: Packet): State {
    if IsCodecHeader(p) then st
    else if p.kind == VIDEO then CorrectVideo(st, p.stamp)
    else if p.kind == AUDIO then CorrectAudio(st, p.stamp)
    else st
  }

  /** The timestamp given out, cut to 32 bits; codec headers and other packets get zero. */
  function Result(st: State, p: Packet): uint32 {
    if IsCodecHeader(p) then 0
    else if p.kind == VIDEO then Next(st, p).video.corrected % TWO32
    else if p.kind == AUDIO then Next(st, p).audio.corrected % TWO32
    else 0
  }

  /** The packets of one kind that are corrected, by their timestamps. */
  function Stamps(ps: seq<Packet>, kind: int): seq<int> {
    if |ps| == 0 then []
    else if IsCodecHeader(ps[0]) || ps[0].kind != kind then Stamps(ps[1..], kind)
    else [ps[0].stamp] + Stamps(ps[1..], kind)
  }

  /** What they are given out as. */
  function Results(st: State, ps: seq<Packet>, kind: int): seq<int>
    decreases |ps|
  {
    if |ps| == 0 then []
    else if IsCodecHeader(ps[0]) || ps[0].kind != kind then Results(Next(st, ps[0]), ps[1..], kind)
    else [Result(st, ps[0])] + Results(Next(st, ps[0]), ps[1..], kind)
  }

  /** The corrected times themselves, before they are cut to 32 bits. */
  function Times(st: State, ps: seq<Packet>, kind: int): seq<int>
    decreases |ps|
  {
    if |ps| == 0 then []
    else if IsCodecHeader(ps[0]) || ps[0].kind != kind then Times(Next(st, ps[0]), ps[1..], kind)
    else [TrackOf(Next(st, ps[0]), kind).corrected] + Times(Next(st, ps[0]), ps[1..], kind)
  }

  function TrackOf(st: State, kind: int): Track {
    if kind == VIDEO then st.video else st.audio
  }

  function StepOf(kind: int): int {
    if kind == VIDEO then VIDEO_STEP else AUDIO_STEP
  }

  /** Every time follows from the previous one and the gap in the input alone. */
  predicate Follows(ins: seq<int>, outs: seq<int>, step: int) {
    && |ins| == |outs|
    && (forall i :: 0 <= i < |outs| ==> outs[i] >= 0)
    && forall i :: 0 < i < |outs| ==> outs[i] == Max0(outs[i - 1] + Gap(ins[i] - ins[i - 1], step))
  }

  /** The first of `outs`, if there is one, continues the track. */
  predicate Continues(t: Track, ins: seq<int>, outs: seq<int>, step: int)
    requires |ins| == |outs|
  {
    |ins| > 0 && t.original != -1 ==> outs[0] == Max0(t.corrected + Gap(ins[0] - t.original, step))
  }

  /**
    However audio and video are mixed, in every run from every state: the times of one kind follow the
    inputs of that kind. The other kind only decides where the first video packet starts.
   */
  lemma {:induction false} TimesFollow(st: State, ps: seq<Packet>, kind: int)
    requires kind == VIDEO || kind == AUDIO
    ensures
      var ins, times := Stamps(ps, kind), Times(st, ps, kind);
      Follows(ins, times, StepOf(kind)) && Continues(TrackOf(st, kind), ins, times, StepOf(kind))
    decreases |ps|
  {
    hide Next, TrackOf, StepOf, Follows, IsCodecHeader, Gap;
    if |ps| > 0 {
      var p, st' := ps[0], Next(st, ps[0]);
      TimesFollow(st', ps[1..], kind);
      OneStep(st, p, kind);
      FollowsEvenly(Stamps(ps[1..], kind), Times(st', ps[1..], kind), StepOf(kind));
      if !IsCodecHeader(p) && p.kind == kind {
        var y := TrackOf(st', kind).corrected;
        Prepended(p.stamp, Stamps(ps[1..], kind), y, Times(st', ps[1..], kind), StepOf(kind));
      }
    } else {
      NothingFollows(StepOf(kind));
    }
  }

  lemma NothingFollows(step: int)
    ensures Follows([], [], step)
  {
  }

  lemma FollowsEvenly(ins: seq<int>, outs: seq<int>, step: int)
    requires Follows(ins, outs, step)
    ensures |ins| == |outs|
  {
  }

  /** A packet moves the track of its own kind and no other. */
  lemma OneStep(st: State, p: Packet, kind: int)
    requires kind == VIDEO || kind == AUDIO
    ensures
      var t, t' := TrackOf(st, kind), TrackOf(Next(st, p), kind);
      if !IsCodecHeader(p) && p.kind == kind then
        && t'.original == p.stamp && t'.corrected >= 0
        && (t.original != -1 ==> t'.corrected == Max0(t.corrected + Gap(p.stamp - t.original, StepOf(kind))))
      else t' == t
  {
  }

  lemma Prepended(x: int, ins: seq<int>, y: int, outs: seq<int>, step: int)
    requires Follows(ins, outs, step) && y >= 0
    requires |ins| > 0 ==> outs[0] == Max0(y + Gap(ins[0] - x, step))
    ensures Follows([x] + ins, [y] + outs, step)
  {
    var ins', outs' := [x] + ins, [y] + outs;
    forall i | 0 < i < |outs'| ensures outs'[i] == Max0(outs'[i - 1] + Gap(ins'[i] - ins'[i - 1], step)) {
      assert outs'[i] == outs[i - 1] && ins'[i] == ins[i - 1];
    }
  }

  /** What is given out is the time, cut to 32 bits. */
  lemma {:induction false} ResultsCut(st: State, ps: seq<Packet>, kind: int)
    requires kind == VIDEO || kind == AUDIO
    ensures |Results(st, ps, kind)| == |Times(st, ps, kind)|
    ensures forall i :: 0 <= i < |Times(st, ps, kind)| ==> Results(st, ps, kind)[i] == Times(st, ps, kind)[i] % TWO32
    decreases |ps|
  {
    hide Next;
    if |ps| > 0 {
      ResultsCut(Next(st, ps[0]), ps[1..], kind);
    }
  }

  /** No time of the run reaches 2^32. */
  predicate NoWrap(times: seq<int>) {
    forall i :: 0 <= i < |times| ==> times[i] < TWO32
  }

  /** The times are given out as they are exactly if none of them reaches 2^32. */
  lemma NoWrapIff(st: State, ps: seq<Packet>, kind: int)
    requires kind == VIDEO || kind == AUDIO
    ensures Results(st, ps, kind) == Times(st, ps, kind) <==> NoWrap(Times(st, ps, kind))
  {
    hide Results, Times, Stamps;
    TimesFollow(st, ps, kind);
    ResultsCut(st, ps, kind);
    var outs, times := Results(st, ps, kind), Times(st, ps, kind);
    if NoWrap(times) {
      forall i | 0 <= i < |times| ensures outs[i] == times[i] {
        assert times[i] % TWO32 == times[i];
      }
    } else {
      var i :| 0 <= i < |times| && times[i] >= TWO32;
      assert outs[i] < TWO32;
    }
  }

  /** As long as nothing wraps, the outputs of one kind follow the inputs of that kind. */
  lemma Separately(st: State, ps: seq<Packet>, kind: int)
    requires kind == VIDEO || kind == AUDIO
    requires NoWrap(Times(st, ps, kind))
    ensures
      var ins, outs := Stamps(ps, kind), Results(st, ps, kind);
      Follows(ins, outs, StepOf(kind)) && Continues(TrackOf(st, kind), ins, outs, StepOf(kind))
  {
    TimesFollow(st, ps, kind);
    NoWrapIff(st, ps, kind);
  }

  /**
    A whole run from any state in which nothing wraps. For each kind, outputs are not negative and differ
    by at most 99 from one to the next; where the input does not go back, neither does the output; and a
    gap under 100 is kept exactly, unless it would lead below zero.
   */
  lemma CorrectedRun(st: State, ps: seq<Packet>, kind: int, i: nat)
    requires kind == VIDEO || kind == AUDIO
    requires NoWrap(Times(st, ps, kind)) && i < |Stamps(ps, kind)|
    ensures
      var ins, outs := Stamps(ps, kind), Results(st, ps, kind);
      && |outs| == |ins| && outs[i] >= 0
      && (i > 0 ==>
          && -99 <= outs[i] - outs[i - 1] <= 99
          && (ins[i - 1] <= ins[i] ==> outs[i - 1] <= outs[i])
          && (-100 < ins[i] - ins[i - 1] < 100 ==>
              outs[i] - outs[i - 1] == ins[i] - ins[i - 1] || outs[i] == 0 > outs[i - 1] + ins[i] - ins[i - 1]))
  {
    hide Results, Times, Stamps, NoWrap;
    Separately(st, ps, kind);
  }

  /** Where a time does pass a multiple of 2^32, and only there, two outputs in a row are 100 or more apart. */
  lemma WrapShows(st: State, ps: seq<Packet>, kind: int, i: nat)
    requires kind == VIDEO || kind == AUDIO
    requires 0 < i < |Stamps(ps, kind)|
    ensures
      var outs, times := Results(st, ps, kind), Times(st, ps, kind);
      && |outs| == |times| == |Stamps(ps, kind)|
      && (-99 <= outs[i] - outs[i - 1] <= 99 <==> times[i] / TWO32 == times[i - 1] / TWO32)
  {
    hide Results, Times, Stamps;
    TimesFollow(st, ps, kind);
    ResultsCut(st, ps, kind);
    var times := Times(st, ps, kind);
    assert -99 <= times[i] - times[i - 1] <= 99;
    NearInEpoch(times[i - 1], times[i]);
  }

  lemma NearInEpoch(a: nat, b: nat)
    requires -99 <= b - a <= 99
    ensures -99 <= b % TWO32 - a % TWO32 <= 99 <==> b / TWO32 == a / TWO32
  {
    assert a == TWO32 * (a / TWO32) + a % TWO32 && b == TWO32 * (b / TWO32) + b % TWO32;
  }

  /** No corrected time exceeds `bound`, which is at least every stamp. */
  predicate Below(st: State, bound: int) {
    0 <= st.video.corrected <= bound && 0 <= st.audio.corrected <= bound
  }

  lemma NextBelow(st: State, p: Packet, bound: int)
    requires Below(st, bound) && p.stamp <= bound
    ensures Below(Next(st, p), bound + 99)
  {
  }

  /** A packet moves a track up by at most 99, so short runs do not wrap. */
  lemma {:induction false} BoundedRun(st: State, ps: seq<Packet>, kind: int, bound: int)
    requires Below(st, bound) && bound + 99 * |ps| < TWO32 && forall p :: p in ps ==> p.stamp <= bound
    ensures NoWrap(Times(st, ps, kind))
    decreases |ps|
  {
    hide Next;
    if |ps| > 0 {
      assert ps[0] in ps;
      NextBelow(st, ps[0], bound);
      forall q | q in ps[1..] ensures q.stamp <= bound + 99 {
        assert q in ps;
      }
      BoundedRun(Next(st, ps[0]), ps[1..], kind, bound + 99);
    }
  }

  /** Stamps below 2^31: a fresh run of up to 21691754 packets cannot wrap, whatever they are. */
  lemma ShortRunFits(ps: seq<Packet>, kind: int)
    requires |ps| <= 21691754 && forall p :: p in ps ==> p.stamp < 0x8000_0000
    ensures NoWrap(Times(FRESH, ps, kind))
  {
    BoundedRun(FRESH, ps, kind, 0x7FFF_FFFF);
  }

  /** The gap at `m` is small, and following it does not lead below zero. */
  predicate Smooth(ins: seq<int>, outs: seq<int>, m: int) {
    0 < m < |ins| && m < |outs| && -100 < ins[m] - ins[m - 1] < 100
    && (ins[m - 1] <= ins[m] || outs[m - 1] + (ins[m] - ins[m - 1]) >= 0)
  }

  /** Over any stretch of small gaps without a clamp at zero, output minus input stays the same. */
  lemma {:induction false} OffsetKept(st: State, ps: seq<Packet>, kind: int, i: nat, j: nat)
    requires kind == VIDEO || kind == AUDIO
    requires NoWrap(Times(st, ps, kind)) && i <= j < |Stamps(ps, kind)|
    requires forall m :: i < m <= j ==> Smooth(Stamps(ps, kind), Results(st, ps, kind), m)
    ensures
      var ins, outs := Stamps(ps, kind), Results(st, ps, kind);
      |outs| == |ins| && outs[j] - ins[j] == outs[i] - ins[i]
    decreases j
  {
    hide Results, Times, Stamps, NoWrap;
    CorrectedRun(st, ps, kind, j);
    if i < j {
      CorrectedRun(st, ps, kind, j - 1);
      assert Smooth(Stamps(ps, kind), Results(st, ps, kind), j);
      OffsetKept(st, ps, kind, i, j - 1);
    }
  }

  /** A gap of 100 or more, either way, is bridged by 40 milliseconds of video or 20 of audio. */
  lemma LargeGap(st: State, ps: seq<Packet>, kind: int, i: nat)
    requires kind == VIDEO || kind == AUDIO
    requires 0 < i < |Stamps(ps, kind)| && !(-100 < Stamps(ps, kind)[i] - Stamps(ps, kind)[i - 1] < 100)
    ensures
      var times := Times(st, ps, kind);
      |times| == |Stamps(ps, kind)| && times[i] == times[i - 1] + (if kind == VIDEO then 40 else 20)
  {
    hide Times, Stamps;
    TimesFollow(st, ps, kind);
  }

  /**
    A codec header, whose second byte is zero, is given out under time zero, and everything else as if it
    had never been there.
   */
  lemma {:induction false} HeadersInvisible(st: State, before: seq<Packet>, p: Packet, after: seq<Packet>, kind: int)
    requires |p.data| > 1 && p.data[1] == 0
    ensures Result(st, p) == 0
    ensures Results(st, before + [p] + after, kind) == Results(st, before + after, kind)
    decreases |before|
  {
    var ps, qs := before + [p] + after, before + after;
    if |before| == 0 {
      assert ps[1..] == after == qs;
    } else {
      assert ps[0] == qs[0] == before[0];
      assert ps[1..] == before[1..] + [p] + after && qs[1..] == before[1..] + after;
      hide Next, Result;
      HeadersInvisible(Next(st, before[0]), before[1..], p, after, kind);
      assert Result(st, p) == 0 by { HeaderIsZero(st, p); }
    }
  }

  lemma HeaderIsZero(st: State, p: Packet)
    requires |p.data| > 1 && p.data[1] == 0
    ensures Result(st, p) == 0
  {
  }

  /** In every stream the first audio packet is given out as it came, whatever video preceded it. */
  lemma {:induction false} FirstAudioKept(st: State, ps: seq<Packet>)
    requires st.audio.original == -1 && |Stamps(ps, AUDIO)| > 0
    ensures |Results(st, ps, AUDIO)| > 0 && Results(st, ps, AUDIO)[0] == Stamps(ps, AUDIO)[0]
    decreases |ps|
  {
    if IsCodecHeader(ps[0]) || ps[0].kind != AUDIO {
      FirstAudioKept(Next(st, ps[0]), ps[1..]);
    }
  }

  /**
    The first video packet is given out as it came too, unless audio runs already and is 100 or more
    away: then it follows the audio by the default step.
   */
  lemma FirstVideoIs(st: State, ps: seq<Packet>, p: Packet, rest: seq<Packet>)
    requires st.video.original == -1 && 0 <= st.audio.corrected < 0x8000_0000
    requires -1 <= st.audio.original < 0x8000_0000 && p.stamp < 0x8000_0000
    requires ps == [p] + rest && !IsCodecHeader(p) && p.kind == VIDEO
    ensures
      var far := st.audio.original != -1 && !(-MAX_DELTA < st.audio.original - p.stamp < MAX_DELTA);
      Results(st, ps, VIDEO)[0] == if far then st.audio.corrected + VIDEO_STEP else p.stamp
  {
  }
}
