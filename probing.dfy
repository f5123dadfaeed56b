/** Stream validation of a probe result and the encoder choice that follows
    from the probed codecs (reencode.py, `Probe.probe` and `reencode`). */
module Probing {
  import opened Wrappers

  /** One entry of the inspection tool's `streams` list. */
  datatype StreamRecord = StreamRecord(codecName: string, codecType: string)

  /** The `format` object; `duration` is kept as the text the tool reports. */
  datatype FormatRecord = FormatRecord(duration: Option<string>)

  /** The decoded inspection output: its streams and, when present, its format. */
  datatype ProbeData = ProbeData(streams: seq<StreamRecord>, format: Option<FormatRecord>)

  /** What a successful probe yields: the video codec and the audio codec, if any. */
  datatype ProbeInfo = ProbeInfo(videoCodec: string, audioCodec: Option<string>)

  datatype ProbeError = NoVideoStream | TooManyAudioStreams | BadFormatData

  const Video := "video"
  const Audio := "audio"

  /** `[s["codec_name"] for s in streams if s["codec_type"] == t]`. */
  function CodecsOfType(streams: seq<StreamRecord>, t: string): (r: seq<string>)
    ensures |r| <= |streams|
  {
    if streams == [] then []
    else (if streams[0].codecType == t then [streams[0].codecName] else []) + CodecsOfType(streams[1..], t)
  }

  /** Position `i` holds a stream of type `t`. */
  predicate HasTypeAt(streams: seq<StreamRecord>, t: string, i: int) {
    0 <= i < |streams| && streams[i].codecType == t
  }

  ghost predicate NoneOfType(streams: seq<StreamRecord>, t: string) {
    forall i :: !HasTypeAt(streams, t, i)
  }

  ghost predicate AtMostOneOfType(streams: seq<StreamRecord>, t: string) {
    forall i, j :: HasTypeAt(streams, t, i) && HasTypeAt(streams, t, j) ==> i == j
  }

  lemma {:induction false} CodecsEmptyIff(streams: seq<StreamRecord>, t: string)
    ensures CodecsOfType(streams, t) == [] <==> NoneOfType(streams, t)
  {
    if streams != [] {
      CodecsEmptyIff(streams[1..], t);
      if streams[0].codecType != t {
        forall i | HasTypeAt(streams, t, i) ensures HasTypeAt(streams[1..], t, i - 1) {}
        forall i | HasTypeAt(streams[1..], t, i) ensures HasTypeAt(streams, t, i + 1) {}
      } else {
        assert HasTypeAt(streams, t, 0);
      }
    }
  }

  lemma {:induction false} CodecsAtMostOneIff(streams: seq<StreamRecord>, t: string)
    ensures |CodecsOfType(streams, t)| <= 1 <==> AtMostOneOfType(streams, t)
  {
    if streams != [] {
      var tail := streams[1..];
      CodecsAtMostOneIff(tail, t);
      CodecsEmptyIff(tail, t);
      assert forall i :: HasTypeAt(tail, t, i) ==> HasTypeAt(streams, t, i + 1);
      assert forall i :: i > 0 && HasTypeAt(streams, t, i) ==> HasTypeAt(tail, t, i - 1);
      if streams[0].codecType == t {
        assert HasTypeAt(streams, t, 0);
      } else {
        assert forall i :: HasTypeAt(streams, t, i) ==> i > 0;
      }
    }
  }

  /** When exactly one stream has type `t`, its codec is the one listed. */
  lemma {:induction false} SingleCodec(streams: seq<StreamRecord>, t: string, i: int)
    requires |CodecsOfType(streams, t)| == 1
    requires HasTypeAt(streams, t, i)
    ensures CodecsOfType(streams, t) == [streams[i].codecName]
  {
    var tail := streams[1..];
    if i == 0 {
      CodecsEmptyIff(tail, t);
    } else {
      assert HasTypeAt(tail, t, i - 1);
      if streams[0].codecType == t {
        CodecsEmptyIff(tail, t);
      } else {
        SingleCodec(tail, t, i - 1);
      }
    }
  }

  /** `Probe.probe` once the tool's JSON is decoded: exactly one video
      stream, at most one audio stream, and a format with a duration. */
  function Probe(data: ProbeData): (r: Result<ProbeInfo, ProbeError>)
  {
    var videoCodecs := CodecsOfType(data.streams, Video);
    var audioCodecs := CodecsOfType(data.streams, Audio);
    if |videoCodecs| != 1 then Err(NoVideoStream)
    else if |audioCodecs| > 1 then Err(TooManyAudioStreams)
    else if data.format.None? || data.format.value.duration.None? then Err(BadFormatData)
    else Ok(ProbeInfo(videoCodecs[0], if |audioCodecs| == 1 then Some(audioCodecs[0]) else None))
  }

  predicate HasDuration(data: ProbeData) {
    data.format.Some? && data.format.value.duration.Some?
  }

  /** A probe succeeds exactly when one stream is video, at most one is audio
      and the format carries a duration; the codecs it reports are those of
      the video stream and of the audio stream, and the audio codec is absent
      exactly when no stream is audio. */
  lemma ProbeSpec(data: ProbeData)
    ensures Probe(data).Ok? <==>
      && (exists i :: HasTypeAt(data.streams, Video, i))
      && AtMostOneOfType(data.streams, Video)
      && AtMostOneOfType(data.streams, Audio)
      && HasDuration(data)
    ensures Probe(data).Ok? ==>
      forall i :: HasTypeAt(data.streams, Video, i) ==> Probe(data).value.videoCodec == data.streams[i].codecName
    ensures Probe(data).Ok? ==>
      (Probe(data).value.audioCodec.None? <==> NoneOfType(data.streams, Audio))
    ensures Probe(data).Ok? ==>
      forall i :: HasTypeAt(data.streams, Audio, i) ==> Probe(data).value.audioCodec == Some(data.streams[i].codecName)
  {
    var s := data.streams;
    CodecsEmptyIff(s, Video);
    CodecsAtMostOneIff(s, Video);
    CodecsEmptyIff(s, Audio);
    CodecsAtMostOneIff(s, Audio);
    assert |CodecsOfType(s, Video)| == 1 <==> CodecsOfType(s, Video) != [] && |CodecsOfType(s, Video)| <= 1;
    forall i | HasTypeAt(s, Video, i) && |CodecsOfType(s, Video)| == 1
      ensures CodecsOfType(s, Video) == [s[i].codecName]
    {
      SingleCodec(s, Video, i);
    }
    forall i | HasTypeAt(s, Audio, i) && |CodecsOfType(s, Audio)| == 1
      ensures CodecsOfType(s, Audio) == [s[i].codecName]
    {
      SingleCodec(s, Audio, i);
    }
  }

  /** Error precedence: a bad video count is reported before a bad audio
      count, and both before missing format data. */
  lemma ProbeErrorOrder(data: ProbeData)
    ensures NoneOfType(data.streams, Video) ==> Probe(data) == Err(NoVideoStream)
    ensures !AtMostOneOfType(data.streams, Video) ==> Probe(data) == Err(NoVideoStream)
    ensures Probe(data) == Err(TooManyAudioStreams) <==>
      (exists i :: HasTypeAt(data.streams, Video, i)) && AtMostOneOfType(data.streams, Video)
      && !AtMostOneOfType(data.streams, Audio)
  {
    var s := data.streams;
    CodecsEmptyIff(s, Video);
    CodecsAtMostOneIff(s, Video);
    CodecsAtMostOneIff(s, Audio);
  }

  const CopyEncoder := "copy"
  const TargetVideoCodec := "hevc"
  const TargetAudioCodec := "aac"

  /** The video encoder: stream copy for HEVC input, `libx265` otherwise. */
  function VideoEncoder(codec: string): (e: string)
    ensures e == CopyEncoder <==> codec == TargetVideoCodec
    ensures e == CopyEncoder || e == "libx265"
  {
    if codec == TargetVideoCodec then CopyEncoder else "libx265"
  }

  /** The audio encoder: stream copy for AAC or absent audio, `aac` otherwise. */
  function AudioEncoder(acodec: Option<string>): (e: string)
    ensures e == CopyEncoder <==> acodec == None || acodec == Some(TargetAudioCodec)
    ensures e == CopyEncoder || e == TargetAudioCodec
  {
    if acodec == Some(TargetAudioCodec) || acodec.None? then CopyEncoder else TargetAudioCodec
  }

  /** The input is already in the target format: both encoders would copy. */
  predicate InTargetFormat(info: ProbeInfo) {
    VideoEncoder(info.videoCodec) == CopyEncoder && AudioEncoder(info.audioCodec) == CopyEncoder
  }

  lemma InTargetFormatIff(info: ProbeInfo)
    ensures InTargetFormat(info) <==>
      info.videoCodec == "hevc" && (info.audioCodec.None? || info.audioCodec == Some("aac"))
  {
  }
}
