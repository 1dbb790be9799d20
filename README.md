# Frame statistics of the video codec analyzer

This project models `VideoCodecAnalyzer` from WebRTC's video codec test framework. The analyzer watches an encode/decode pipeline: the pipeline calls `StartEncode`, `FinishEncode`, `StartDecode` and `FinishDecode`. The analyzer files each call under a per-frame record and `GetStats` returns the records.

The analyzer's own header and implementation are not part of this model. The model follows what the analyzer's unit tests fix and the design described for it:

- The store is an insertion-ordered list of `FrameStats` records.
- A record is keyed by (RTP timestamp, spatial layer index).
- Every event computes its key, reuses the record with that key or appends a fresh one, and then updates fields of that record in place.
- `StartEncode` always uses layer 0.
- `FinishEncode` and `StartDecode` use the encoded image's timestamp and spatial index.
- `FinishDecode` uses the decoded frame's timestamp and the layer index passed to it.
- Encode finish sets `encoding_successful`.
- Decode finish sets `decoding_successful` and the decoded width and height.
- With a reference video source attached, decode finish asks that source once for the reference frame at the same timestamp and the decoded resolution.

Layout:

- `frame_stats.dfy` (module `FrameStatistics`) holds the records, the events and the keyed lookup `IndexOf`. It also holds find-or-create (`GetOrAdd`), the per-event field update (`Effect`), one event on the store (`Step`) and a sequence of events (`Run`). The lemmas about them are there too.
- `analyzer.dfy` (module `Analyzer`) holds the class `VideoCodecAnalyzer`, whose `frames` field the event methods update in place. Its search loop `Find` is proved equal to `IndexOf`, and each event method is proved to leave `frames` equal to `Step` of the old store. Every lemma about `Step` and `Run` therefore applies to the object.
- `analyzer_test.dfy` (module `VideoCodecAnalyzerTest`) has one method per unit test. Each builds a fresh analyzer, reports the test's events and returns what the test inspects. The test's expectations are the method's postconditions.

Modelling choices:

- RTP timestamps are unsigned 32-bit values (`Timestamp`).
- Spatial indices, widths and heights are `nat`.
- `GetStats` returns the record list directly. In the source it returns a stats object whose `GetFrameStatistics()` gives the list.
- The reference video source is a constructor flag. Its calls are recorded in the real field `referenceRequests`, which stands for the mock's call expectation. Each entry holds the timestamp and resolution of one call. The tests only check how many calls were made. The arguments follow the design described for the analyzer.

## Model

| member | source | states |
|---|---|---|
| FrameStatistics.EventKey | src/modules/video_coding/codecs/test/video_codec_analyzer_unittest.cc:60-116 | encode start files under (frame timestamp, layer 0); encode finish and decode start under the encoded image's (timestamp, spatial index); decode finish under (frame timestamp, given layer) |
| FrameStatistics.IndexOf | src/modules/video_coding/codecs/test/video_codec_analyzer_unittest.cc:93-101 | the lookup finds a record carrying the key and no earlier one, and finds nothing exactly when no record has the key |
| FrameStatistics.IndexOfUnique | src/modules/video_coding/codecs/test/video_codec_analyzer_unittest.cc:93-101 | with unique keys, looking up a record's key yields that record's position |
| FrameStatistics.GetOrAdd | src/modules/video_coding/codecs/test/video_codec_analyzer_unittest.cc:83-101 | find-or-create returns a position holding the key; existing records remain an unchanged prefix; the store grows by one exactly when the key was absent, and then the new record is last and fresh; unique keys stay unique |
| FrameStatistics.Effect | src/modules/video_coding/codecs/test/video_codec_analyzer_unittest.cc:70-116 | a record's key never changes; encoding_successful becomes true on encode finish and otherwise stays as it was; decoding_successful likewise on decode finish; decode finish sets the decoded dimensions to the frame's, and other events leave them alone |
| FrameStatistics.Step | src/modules/video_coding/codecs/test/video_codec_analyzer_unittest.cc:60-116 | one event keeps the count when its key is present and adds one record otherwise; every old record keeps its position and key; records of other keys are untouched; the record of the key gets the event's effect; a new record is appended last; keys stay unique |
| FrameStatistics.StepHasKey | src/modules/video_coding/codecs/test/video_codec_analyzer_unittest.cc:83-101 | after an event a key has a record exactly when it had one before or is the event's key |
| FrameStatistics.StepAppendsFresh | src/modules/video_coding/codecs/test/video_codec_analyzer_unittest.cc:83-91 | an event for a key the store lacks appends exactly one record, holding that key with the event's effect on a fresh record |
| FrameStatistics.SecondEventReusesOnlyOnSameKey | src/modules/video_coding/codecs/test/video_codec_analyzer_unittest.cc:70-101 | a second event reuses a record exactly when its key was present before or equals the first event's key; otherwise, as with layer 2 after layer 0, it appends |
| FrameStatistics.RunPreservesUniqueKeys | src/modules/video_coding/codecs/test/video_codec_analyzer_unittest.cc:70-113 | no sequence of events ever creates two records with the same key |
| FrameStatistics.RunKeepsOrder | src/modules/video_coding/codecs/test/video_codec_analyzer_unittest.cc:70-81 | records are never removed or reordered: after any events every earlier record keeps its position and key |
| FrameStatistics.RunHasKey | src/modules/video_coding/codecs/test/video_codec_analyzer_unittest.cc:83-101 | after a sequence of events a key has a record exactly when it had one before or some event carried it |
| FrameStatistics.SameKeyEventsCommute | src/modules/video_coding/codecs/test/video_codec_analyzer_unittest.cc:93-101 | two events with the same key, other than two decode finishes, give the same store in either order, so a decode reported before its encode is tolerated |
| FrameStatistics.DistinctEncodeStartsAppendInOrder | src/modules/video_coding/codecs/test/video_codec_analyzer_unittest.cc:60-68 | encode starts of frames with distinct new timestamps append one fresh layer-0 record per frame, in arrival order, each with its frame's timestamp |
| Analyzer.VideoCodecAnalyzer.constructor | src/modules/video_coding/codecs/test/video_codec_analyzer_unittest.cc:119-121 | a new analyzer has no records and has made no reference requests; it has a reference source exactly when given one |
| Analyzer.VideoCodecAnalyzer.Find | src/modules/video_coding/codecs/test/video_codec_analyzer_unittest.cc:93-101 | the search loop returns a position holding the key, returns nothing exactly when no record has the key, and agrees with IndexOf |
| Analyzer.VideoCodecAnalyzer.GetOrAddFrame | src/modules/video_coding/codecs/test/video_codec_analyzer_unittest.cc:83-101 | the shared find-or-create updates the record list in place exactly as GetOrAdd and keeps keys unique |
| Analyzer.VideoCodecAnalyzer.StartEncode | src/modules/video_coding/codecs/test/video_codec_analyzer_unittest.cc:60-68 | the record list becomes Step of the old list for the encode-start event at layer 0; no reference request |
| Analyzer.VideoCodecAnalyzer.FinishEncode | src/modules/video_coding/codecs/test/video_codec_analyzer_unittest.cc:70-81 | the record list becomes Step of the old list for the encode-finish event, which marks the layer's record as successfully encoded; no reference request |
| Analyzer.VideoCodecAnalyzer.StartDecode | src/modules/video_coding/codecs/test/video_codec_analyzer_unittest.cc:83-101 | the record list becomes Step of the old list for the decode-start event; no reference request |
| Analyzer.VideoCodecAnalyzer.FinishDecode | src/modules/video_coding/codecs/test/video_codec_analyzer_unittest.cc:103-133 | the record list becomes Step of the old list for the decode-finish event, with decoding successful and the frame's dimensions; exactly one reference request (frame timestamp, decoded resolution) when a reference source is attached, none otherwise |
| Analyzer.VideoCodecAnalyzer.GetStats | src/modules/video_coding/codecs/test/video_codec_analyzer_unittest.cc:65 | returns the current records in insertion order, changes nothing, and no two returned records share a key |
| VideoCodecAnalyzerTest.CreateVideoFrame | src/modules/video_coding/codecs/test/video_codec_analyzer_unittest.cc:35-50 | a test frame carries the given RTP timestamp and is 2x2 pixels |
| VideoCodecAnalyzerTest.CreateEncodedImage | src/modules/video_coding/codecs/test/video_codec_analyzer_unittest.cc:52-57 | a test encoded image carries the given timestamp and spatial index |
| VideoCodecAnalyzerTest.EncodeStartedCreatesFrameStats | src/modules/video_coding/codecs/test/video_codec_analyzer_unittest.cc:60-68 | on a fresh analyzer, encode start yields exactly one record, carrying the frame's timestamp |
| VideoCodecAnalyzerTest.EncodeFinishedUpdatesFrameStats | src/modules/video_coding/codecs/test/video_codec_analyzer_unittest.cc:70-81 | encode finish at layer 2 after encode start (layer 0) at the same timestamp gives two records, the second successfully encoded |
| VideoCodecAnalyzerTest.DecodeStartedNoFrameStatsCreatesFrameStats | src/modules/video_coding/codecs/test/video_codec_analyzer_unittest.cc:83-91 | decode start with no record for its key creates exactly one record, carrying the timestamp |
| VideoCodecAnalyzerTest.DecodeStartedFrameStatsExistsReusesFrameStats | src/modules/video_coding/codecs/test/video_codec_analyzer_unittest.cc:93-101 | decode start at layer 0 after encode start at the same timestamp reuses the record: one record |
| VideoCodecAnalyzerTest.DecodeFinishedUpdatesFrameStats | src/modules/video_coding/codecs/test/video_codec_analyzer_unittest.cc:103-116 | decode finish at the key of a prior decode start keeps one record, marks it successfully decoded, and records the 2x2 decoded size |
| VideoCodecAnalyzerTest.DecodeFinishedComputesPsnr | src/modules/video_coding/codecs/test/video_codec_analyzer_unittest.cc:118-138 | with a reference source, one decode finish asks the source exactly once, at timestamp 3000 and 2x2, and adds no record: one record |

## Left out

- PSNR: the Y, U and V values in decibels (unit test lines 135-137) are floating-point results of pixel-level code that is not part of this model. The model records only that the reference source is asked, and for which frame. The reference frame's content, the pixel values of the test frames (lines 36-44) and the per-plane metric are not modelled.
- VideoCodecAnalyzerTest.DecodeFinishedComputesPsnr: does not state the tests' PSNR bounds (about 48, 42 and 38 dB), for the reason above.
- The task queue through which every call is posted (lines 61-62) is concurrency plumbing. The calls are modelled as plain sequential method calls in submission order.
- The mocking framework behind the reference source (lines 29-33, 124-126) is foreign code. Its once-only call expectation is modelled by the `referenceRequests` log.
- Frame buffers, `libyuv` pixel filling and the `VideoFrame`/`EncodedImage` builders (lines 39-56) are foreign calls. Frames and encoded images are reduced to timestamp, spatial index, width and height.
- Record fields the tests do not observe are not modelled: "attempted" flags, timing fields, frame sizes. The same goes for what a missing or failing reference fetch does beyond making no request.
- The record order when several spatial layers interleave is taken to be global insertion order. The tests only fix the case of a layer-0 record followed by a layer-2 record. A store that grouped records by layer would pass them too.
- An encoded image without a spatial index is not modelled. The tests always set one, with 0 as the default.
