/**
 * The analyzer's unit tests, one method per test. Each builds a fresh
 * analyzer, reports the test's events, and returns what the test inspects;
 * the test's expectations are the method's postconditions.
 */
module VideoCodecAnalyzerTest {
  import opened FrameStatistics
  import opened Analyzer

  const kTimestamp: Timestamp := 3000
  const kSpatialIdx: nat := 2

  /** The tests' raw frames are all 2x2 pixels. */
  function CreateVideoFrame(timestamp_rtp: Timestamp): (f: VideoFrame)
    ensures f.timestamp_rtp == timestamp_rtp
    ensures f.width == 2 && f.height == 2
  {
    VideoFrame(timestamp_rtp, 2, 2)
  }

  function CreateEncodedImage(timestamp_rtp: Timestamp, spatial_idx: nat): (image: EncodedImage)
    ensures image.timestamp_rtp == timestamp_rtp && image.spatial_idx == spatial_idx
  {
    EncodedImage(timestamp_rtp, spatial_idx)
  }

  method EncodeStartedCreatesFrameStats() returns (fs: seq<FrameStats>)
    ensures |fs| == 1
    ensures fs[0].rtp_timestamp == kTimestamp
  {
    var analyzer := new VideoCodecAnalyzer(false);
    analyzer.StartEncode(CreateVideoFrame(kTimestamp));
    fs := analyzer.GetStats();
  }

  method EncodeFinishedUpdatesFrameStats() returns (fs: seq<FrameStats>)
    ensures |fs| == 2
    ensures fs[1].encoding_successful
  {
    var analyzer := new VideoCodecAnalyzer(false);
    analyzer.StartEncode(CreateVideoFrame(kTimestamp));
    var encoded_frame := CreateEncodedImage(kTimestamp, kSpatialIdx);
    analyzer.FinishEncode(encoded_frame);
    fs := analyzer.GetStats();
  }

  method DecodeStartedNoFrameStatsCreatesFrameStats() returns (fs: seq<FrameStats>)
    ensures |fs| == 1
    ensures fs[0].rtp_timestamp == kTimestamp
  {
    var analyzer := new VideoCodecAnalyzer(false);
    analyzer.StartDecode(CreateEncodedImage(kTimestamp, kSpatialIdx));
    fs := analyzer.GetStats();
  }

  method DecodeStartedFrameStatsExistsReusesFrameStats() returns (fs: seq<FrameStats>)
    ensures |fs| == 1
  {
    var analyzer := new VideoCodecAnalyzer(false);
    analyzer.StartEncode(CreateVideoFrame(kTimestamp));
    analyzer.StartDecode(CreateEncodedImage(kTimestamp, 0));
    fs := analyzer.GetStats();
  }

  method DecodeFinishedUpdatesFrameStats() returns (fs: seq<FrameStats>)
    ensures |fs| == 1
    ensures fs[0].decoding_successful
    ensures fs[0].decoded_width == CreateVideoFrame(kTimestamp).width
    ensures fs[0].decoded_height == CreateVideoFrame(kTimestamp).height
  {
    var analyzer := new VideoCodecAnalyzer(false);
    analyzer.StartDecode(CreateEncodedImage(kTimestamp, kSpatialIdx));
    var decoded_frame := CreateVideoFrame(kTimestamp);
    analyzer.FinishDecode(decoded_frame, kSpatialIdx);
    fs := analyzer.GetStats();
  }

  /**
   * With a reference source attached, one decode finish asks it exactly once
   * for the reference frame, at the frame's timestamp and decoded resolution,
   * and adds no record.
   */
  method DecodeFinishedComputesPsnr() returns (fs: seq<FrameStats>, requests: seq<ReferenceRequest>)
    ensures |fs| == 1
    ensures requests == [ReferenceRequest(kTimestamp, Resolution(2, 2))]
  {
    var analyzer := new VideoCodecAnalyzer(true);
    analyzer.StartDecode(CreateEncodedImage(kTimestamp, kSpatialIdx));
    analyzer.FinishDecode(CreateVideoFrame(kTimestamp), kSpatialIdx);
    fs := analyzer.GetStats();
    requests := analyzer.referenceRequests;
  }
}
