/**
 * The video codec analyzer: a passive observer of an encode/decode pipeline
 * that keeps the frame-statistics store and updates it in place as the
 * pipeline reports events. Each event method is proved to leave the store
 * exactly as `FrameStatistics.Step` says, so every lemma about `Step` and
 * `Run` holds of the object too.
 */
module Analyzer {
  import opened FrameStatistics

  /** The resolution at which a reference frame is requested. */
  datatype Resolution = Resolution(width: nat, height: nat)

  /** One call into the reference video source. */
  datatype ReferenceRequest = ReferenceRequest(timestamp_rtp: Timestamp, resolution: Resolution)

  class VideoCodecAnalyzer {
    /** The records, in the order their keys were first seen. */
    var frames: seq<FrameStats>
    /** Whether the analyzer was built with a reference video source. */
    const hasReferenceSource: bool
    /** The requests made to the reference video source so far, oldest first. */
    var referenceRequests: seq<ReferenceRequest>

    ghost predicate Valid()
      reads this
    {
      UniqueKeys(frames)
    }

    constructor (hasReferenceSource: bool)
      ensures Valid()
      ensures frames == [] && referenceRequests == []
      ensures this.hasReferenceSource == hasReferenceSource
    {
      this.hasReferenceSource := hasReferenceSource;
      frames := [];
      referenceRequests := [];
    }

    /** Searches the store for the record with the given key. */
    method Find(key: FrameKey) returns (index: Option<nat>)
      ensures index.Some? ==> index.value < |frames| && KeyOf(frames[index.value]) == key
      ensures index.None? <==> !HasKey(frames, key)
      ensures index == IndexOf(frames, key)
    {
      var i := 0;
      while i < |frames|
        invariant 0 <= i <= |frames|
        invariant forall j :: 0 <= j < i ==> KeyOf(frames[j]) != key
      {
        if KeyOf(frames[i]) == key {
          return Some(i);
        }
        i := i + 1;
      }
      return None;
    }

    /**
     * Returns the position of the record with the given key, appending a
     * fresh record first when there is none.
     */
    method GetOrAddFrame(key: FrameKey) returns (index: nat)
      requires Valid()
      modifies this
      ensures Valid()
      ensures (frames, index) == GetOrAdd(old(frames), key)
      ensures referenceRequests == old(referenceRequests)
    {
      var found := Find(key);
      match found
      case Some(i) =>
        index := i;
      case None =>
        index := |frames|;
        frames := frames + [NewFrameStats(key)];
    }

    /** Encode start of a raw frame: files it under layer 0. */
    method StartEncode(frame: VideoFrame)
      requires Valid()
      modifies this
      ensures Valid()
      ensures frames == Step(old(frames), EncodeStarted(frame))
      ensures referenceRequests == old(referenceRequests)
    {
      var index := GetOrAddFrame(FrameKey(frame.timestamp_rtp, 0));
    }

    /** Encode finish of one spatial layer: marks its encoding successful. */
    method FinishEncode(image: EncodedImage)
      requires Valid()
      modifies this
      ensures Valid()
      ensures frames == Step(old(frames), EncodeFinished(image))
      ensures referenceRequests == old(referenceRequests)
    {
      var index := GetOrAddFrame(FrameKey(image.timestamp_rtp, image.spatial_idx));
      frames := frames[index := frames[index].(encoding_successful := true)];
    }

    /** Decode start of one spatial layer. */
    method StartDecode(image: EncodedImage)
      requires Valid()
      modifies this
      ensures Valid()
      ensures frames == Step(old(frames), DecodeStarted(image))
      ensures referenceRequests == old(referenceRequests)
    {
      var index := GetOrAddFrame(FrameKey(image.timestamp_rtp, image.spatial_idx));
    }

    /**
     * Decode finish of one spatial layer: marks its decoding successful and
     * records the decoded dimensions. With a reference source, asks it once
     * for the reference frame of the same timestamp at the decoded resolution.
     */
    method FinishDecode(frame: VideoFrame, spatial_idx: nat)
      requires Valid()
      modifies this
      ensures Valid()
      ensures frames == Step(old(frames), DecodeFinished(frame, spatial_idx))
      ensures referenceRequests == old(referenceRequests) +
        if hasReferenceSource
        then [ReferenceRequest(frame.timestamp_rtp, Resolution(frame.width, frame.height))]
        else []
    {
      var index := GetOrAddFrame(FrameKey(frame.timestamp_rtp, spatial_idx));
      frames := frames[index := frames[index].(
        decoding_successful := true,
        decoded_width := frame.width,
        decoded_height := frame.height)];
      if hasReferenceSource {
        referenceRequests := referenceRequests +
          [ReferenceRequest(frame.timestamp_rtp, Resolution(frame.width, frame.height))];
      }
    }

    /** A snapshot of the records, in insertion order. */
    method GetStats() returns (stats: seq<FrameStats>)
      requires Valid()
      ensures UniqueKeys(stats)
      ensures stats == frames
    {
      stats := frames;
    }
  }
}
