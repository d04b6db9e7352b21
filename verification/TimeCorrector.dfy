/** `TimeCorrector` with its fields, updated packet by packet. */
module TimeCorrectors {
  import opened Bytes
  import opened TimeCorrection

  class TimeCorrector {
    var videoOriginal: int
    var videoCorrected: int
    var audioOriginal: int
    var audioCorrected: int
    var audioNumbersBetweenVideo: nat

    ghost function Current(): State
      reads this
    {
      State(Track(videoOriginal, videoCorrected), Track(audioOriginal, audioCorrected))
    }

    constructor ()
      ensures Current() == FRESH
    {
      videoOriginal, videoCorrected := -1, 0;
      audioOriginal, audioCorrected := -1, 0;
      audioNumbersBetweenVideo := 0;
    }

    method CorrectTimestamp(p: Packet) returns (r: uint32)
      modifies this
      ensures Current() == Next(old(Current()), p) && r == Result(old(Current()), p)
    {
      if !IsCodecHeader(p) {
        if p.kind == VIDEO {
          r := CorrectVideoTimeStampByVideo(p);
          return;
        } else if p.kind == AUDIO {
          r := CorrectAudioTimeStampByAudio(p);
          return;
        }
      }
      r := 0;
    }

    method CorrectVideoTimeStampByVideo(p: Packet) returns (r: uint32)
      modifies this
      ensures Current() == CorrectVideo(old(Current()), p.stamp) && r == videoCorrected % TWO32
    {
      audioNumbersBetweenVideo := 0;
      var time := p.stamp;
      if videoOriginal == -1 {
        videoOriginal, videoCorrected := time, time;
        if audioOriginal != -1 {
          var delta := Signed32((audioOriginal - videoOriginal) % TWO32);
          if delta <= -MAX_DELTA || delta >= MAX_DELTA {
            videoOriginal, videoCorrected := audioOriginal, audioCorrected;
          }
        }
      }
      var delta := time - videoOriginal;
      var fine := delta > -MAX_DELTA && delta < MAX_DELTA;
      if !fine {
        delta := VIDEO_STEP;
      }
      videoOriginal := time;
      videoCorrected := videoCorrected + delta;
      if videoCorrected < 0 {
        videoCorrected := 0;
      }
      r := videoCorrected % TWO32;
    }

    method CorrectAudioTimeStampByAudio(p: Packet) returns (r: uint32)
      modifies this
      ensures Current() == CorrectAudio(old(Current()), p.stamp) && r == audioCorrected % TWO32
    {
      var time := p.stamp;
      if audioOriginal == -1 {
        audioOriginal, audioCorrected := time, time;
        return time;
      }
      var delta := time - audioOriginal;
      var fine := delta > -MAX_DELTA && delta < MAX_DELTA;
      if !fine {
        delta := AUDIO_STEP;
      }
      audioOriginal := time;
      audioCorrected := audioCorrected + delta;
      if audioCorrected < 0 {
        audioCorrected := 0;
      }
      r := audioCorrected % TWO32;
    }
  }
}
