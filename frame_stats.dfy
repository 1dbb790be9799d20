/**
 * The frame-statistics store of the video codec analyzer, as values.
 *
 * The store is an insertion-ordered list of per-frame records. A record is
 * identified by its key, the pair (RTP timestamp, spatial layer index). Every
 * analyzer event computes a key, finds the record with that key or appends a
 * fresh one, and then updates fields of that record. The functions here are
 * the specification that the analyzer class is proved against.
 */
module FrameStatistics {

  datatype Option<T> = None | Some(value: T)

  /** An RTP timestamp: an unsigned 32-bit value. */
  type Timestamp = t: nat | t < 0x1_0000_0000

  /** An uncompressed frame, reduced to what the analyzer reads from it. */
  datatype VideoFrame = VideoFrame(timestamp_rtp: Timestamp, width: nat, height: nat)

  /** An encoded frame, reduced to what the analyzer reads from it. */
  datatype EncodedImage = EncodedImage(timestamp_rtp: Timestamp, spatial_idx: nat)

  /** The identity of one record of the store. */
  datatype FrameKey = FrameKey(rtp_timestamp: Timestamp, spatial_idx: nat)

  /** One per-frame record, with the fields the analyzer's tests observe. */
  datatype FrameStats = FrameStats(
    rtp_timestamp: Timestamp,
    spatial_idx: nat,
    encoding_successful: bool,
    decoding_successful: bool,
    decoded_width: nat,
    decoded_height: nat)

  /** The four lifecycle events the codec pipeline reports to the analyzer. */
  datatype Event =
    | EncodeStarted(frame: VideoFrame)
    | EncodeFinished(image: EncodedImage)
    | DecodeStarted(image: EncodedImage)
    | DecodeFinished(frame: VideoFrame, spatial_idx: nat)

  function KeyOf(fs: FrameStats): FrameKey {
    FrameKey(fs.rtp_timestamp, fs.spatial_idx)
  }

  /**
   * The key an event is filed under. Encode start always files under layer 0;
   * the encoded-image events use the image's own layer; decode finish uses the
   * layer it is given explicitly.
   */
  function EventKey(e: Event): (k: FrameKey)
    ensures e.EncodeStarted? ==> k == FrameKey(e.frame.timestamp_rtp, 0)
    ensures e.EncodeFinished? || e.DecodeStarted? ==> k == FrameKey(e.image.timestamp_rtp, e.image.spatial_idx)
    ensures e.DecodeFinished? ==> k == FrameKey(e.frame.timestamp_rtp, e.spatial_idx)
  {
    match e
    case EncodeStarted(frame) => FrameKey(frame.timestamp_rtp, 0)
    case EncodeFinished(image) => FrameKey(image.timestamp_rtp, image.spatial_idx)
    case DecodeStarted(image) => FrameKey(image.timestamp_rtp, image.spatial_idx)
    case DecodeFinished(frame, spatial_idx) => FrameKey(frame.timestamp_rtp, spatial_idx)
  }

  /** The record created for a key the store has not seen: nothing succeeded yet. */
  function NewFrameStats(key: FrameKey): FrameStats {
    FrameStats(key.rtp_timestamp, key.spatial_idx, false, false, 0, 0)
  }

  /** No two records of the store share a key. */
  ghost predicate UniqueKeys(frames: seq<FrameStats>) {
    forall i, j :: 0 <= i < j < |frames| ==> KeyOf(frames[i]) != KeyOf(frames[j])
  }

  ghost predicate HasKey(frames: seq<FrameStats>, key: FrameKey) {
    exists j :: 0 <= j < |frames| && KeyOf(frames[j]) == key
  }

  /** The position of the first record with the given key, if there is one. */
  function IndexOf(frames: seq<FrameStats>, key: FrameKey): (r: Option<nat>)
    ensures r.Some? ==> r.value < |frames| && KeyOf(frames[r.value]) == key
    ensures r.Some? ==> forall j :: 0 <= j < r.value ==> KeyOf(frames[j]) != key
    ensures r.None? <==> !HasKey(frames, key)
  {
    if |frames| == 0 then None
    else if KeyOf(frames[0]) == key then Some(0)
    else
      match IndexOf(frames[1..], key)
      case None =>
        assert forall j :: 1 <= j < |frames| ==> frames[j] == frames[1..][j - 1];
        None
      case Some(i) =>
        assert forall j :: 1 <= j < i + 1 ==> frames[j] == frames[1..][j - 1];
        Some(i + 1)
  }

  /** With unique keys, the record carrying a key is the one IndexOf finds. */
  lemma IndexOfUnique(frames: seq<FrameStats>, j: nat)
    requires UniqueKeys(frames)
    requires j < |frames|
    ensures IndexOf(frames, KeyOf(frames[j])) == Some(j)
  {
    assert HasKey(frames, KeyOf(frames[j]));
  }

  /**
   * Find-or-create: the store after the lookup of a key, and the position of
   * the record with that key. An existing record is reused, otherwise a fresh
   * record is appended after all existing ones.
   */
  function GetOrAdd(frames: seq<FrameStats>, key: FrameKey): (r: (seq<FrameStats>, nat))
    ensures r.1 < |r.0| && KeyOf(r.0[r.1]) == key
    ensures |r.0| == if HasKey(frames, key) then |frames| else |frames| + 1
    ensures r.0[..|frames|] == frames
    ensures |r.0| > |frames| ==> r.1 == |frames| && r.0[r.1] == NewFrameStats(key)
    ensures UniqueKeys(frames) ==> UniqueKeys(r.0)
  {
    match IndexOf(frames, key)
    case Some(i) => (frames, i)
    case None => (frames + [NewFrameStats(key)], |frames|)
  }

  /**
   * What an event does to the record of its key. Encode finish marks the
   * encoding successful; decode finish marks the decoding successful and
   * records the decoded frame's dimensions; the start events change no field
   * the tests observe. The key of a record never changes.
   */
  function Effect(fs: FrameStats, e: Event): (r: FrameStats)
    ensures KeyOf(r) == KeyOf(fs)
    ensures r.encoding_successful == (fs.encoding_successful || e.EncodeFinished?)
    ensures r.decoding_successful == (fs.decoding_successful || e.DecodeFinished?)
    ensures e.DecodeFinished? ==> r.decoded_width == e.frame.width && r.decoded_height == e.frame.height
    ensures !e.DecodeFinished? ==> r.decoded_width == fs.decoded_width && r.decoded_height == fs.decoded_height
  {
    match e
    case EncodeStarted(_) => fs
    case EncodeFinished(_) => fs.(encoding_successful := true)
    case DecodeStarted(_) => fs
    case DecodeFinished(frame, _) =>
      fs.(decoding_successful := true, decoded_width := frame.width, decoded_height := frame.height)
  }

  /** The store after one event has been processed. */
  function Step(frames: seq<FrameStats>, e: Event): (r: seq<FrameStats>)
    ensures |r| == if HasKey(frames, EventKey(e)) then |frames| else |frames| + 1
    ensures forall j :: 0 <= j < |frames| ==> KeyOf(r[j]) == KeyOf(frames[j])
    ensures forall j :: 0 <= j < |frames| && KeyOf(frames[j]) != EventKey(e) ==> r[j] == frames[j]
    ensures UniqueKeys(frames) ==>
      forall j :: 0 <= j < |frames| && KeyOf(frames[j]) == EventKey(e) ==> r[j] == Effect(frames[j], e)
    ensures |r| > |frames| ==> r[|frames|] == Effect(NewFrameStats(EventKey(e)), e)
    ensures UniqueKeys(frames) ==> UniqueKeys(r)
  {
    var (fs, i) := GetOrAdd(frames, EventKey(e));
    assert forall j :: 0 <= j < |frames| ==> fs[j] == frames[j];
    assert UniqueKeys(frames) ==>
      forall j :: 0 <= j < |frames| && KeyOf(frames[j]) == EventKey(e) ==> j == i
    by {
      if UniqueKeys(frames) {
        forall j | 0 <= j < |frames| && KeyOf(frames[j]) == EventKey(e)
          ensures j == i
        {
          assert KeyOf(fs[j]) == KeyOf(fs[i]);
        }
      }
    }
    fs[i := Effect(fs[i], e)]
  }

  /** The store after a sequence of events has been processed in order. */
  function Run(frames: seq<FrameStats>, events: seq<Event>): seq<FrameStats>
    decreases |events|
  {
    if events == [] then frames else Run(Step(frames, events[0]), events[1..])
  }

  /** One event leaves a key present exactly when it was present or is the event's key. */
  lemma StepHasKey(frames: seq<FrameStats>, e: Event, key: FrameKey)
    ensures HasKey(Step(frames, e), key) <==> HasKey(frames, key) || key == EventKey(e)
  {
    var r := Step(frames, e);
    if HasKey(frames, key) {
      var j :| 0 <= j < |frames| && KeyOf(frames[j]) == key;
      assert KeyOf(r[j]) == key;
    }
    if key == EventKey(e) && !HasKey(frames, key) {
      assert KeyOf(r[|frames|]) == key;
    }
    if HasKey(r, key) {
      var j :| 0 <= j < |r| && KeyOf(r[j]) == key;
      if j < |frames| {
        assert KeyOf(frames[j]) == key;
      }
    }
  }

  /**
   * A second event reuses a record, rather than appending one, exactly when its
   * key was already in the store or is the key of the first event.
   */
  lemma SecondEventReusesOnlyOnSameKey(frames: seq<FrameStats>, e1: Event, e2: Event)
    ensures |Step(Step(frames, e1), e2)| == |Step(frames, e1)| <==>
      HasKey(frames, EventKey(e2)) || EventKey(e2) == EventKey(e1)
  {
    StepHasKey(frames, e1, EventKey(e2));
  }

  /** Keys stay unique whatever events arrive. */
  lemma {:induction false} RunPreservesUniqueKeys(frames: seq<FrameStats>, events: seq<Event>)
    requires UniqueKeys(frames)
    ensures UniqueKeys(Run(frames, events))
    decreases |events|
  {
    if events != [] {
      RunPreservesUniqueKeys(Step(frames, events[0]), events[1..]);
    }
  }

  /**
   * Records are never removed or reordered: whatever events arrive, every
   * record keeps its position and key, and the store only grows.
   */
  lemma {:induction false} RunKeepsOrder(frames: seq<FrameStats>, events: seq<Event>)
    ensures |Run(frames, events)| >= |frames|
    ensures forall j :: 0 <= j < |frames| ==> KeyOf(Run(frames, events)[j]) == KeyOf(frames[j])
    decreases |events|
  {
    if events != [] {
      RunKeepsOrder(Step(frames, events[0]), events[1..]);
    }
  }

  /** A key has a record exactly when it was present before or some event carried it. */
  lemma {:induction false} RunHasKey(frames: seq<FrameStats>, events: seq<Event>, key: FrameKey)
    ensures HasKey(Run(frames, events), key) <==>
      HasKey(frames, key) || exists i :: 0 <= i < |events| && EventKey(events[i]) == key
    decreases |events|
  {
    if events != [] {
      var rest := events[1..];
      RunHasKey(Step(frames, events[0]), rest, key);
      StepHasKey(frames, events[0], key);
      assert forall i :: 0 <= i < |rest| ==> rest[i] == events[i + 1];
      if exists i :: 0 <= i < |events| && EventKey(events[i]) == key {
        var i :| 0 <= i < |events| && EventKey(events[i]) == key;
        if i > 0 {
          assert EventKey(rest[i - 1]) == key;
        }
      }
    }
  }

  /**
   * Two events for the same key reach the same store in either order, as
   * long as they are not both decode finishes (the later of which decides
   * the decoded dimensions): a decode that is reported before its encode
   * creates the record, and the encode then updates it without disturbing
   * the decode's fields.
   */
  lemma SameKeyEventsCommute(frames: seq<FrameStats>, e1: Event, e2: Event)
    requires EventKey(e1) == EventKey(e2)
    requires !(e1.DecodeFinished? && e2.DecodeFinished?)
    ensures Step(Step(frames, e1), e2) == Step(Step(frames, e2), e1)
  {
    var key := EventKey(e1);
    var (fs, i) := GetOrAdd(frames, key);
    assert IndexOf(Step(frames, e1), key) == Some(i);
    assert IndexOf(Step(frames, e2), key) == Some(i);
    assert Effect(Effect(fs[i], e1), e2) == Effect(Effect(fs[i], e2), e1);
  }

  /** An event for a key the store lacks appends one record and changes nothing else. */
  lemma StepAppendsFresh(frames: seq<FrameStats>, e: Event)
    requires !HasKey(frames, EventKey(e))
    ensures Step(frames, e) == frames + [Effect(NewFrameStats(EventKey(e)), e)]
  {
    var r := Step(frames, e);
    assert forall j :: 0 <= j < |frames| ==> KeyOf(frames[j]) != EventKey(e);
    assert r[..|frames|] == frames;
  }

  lemma AppendAssociative<T>(a: seq<T>, b: seq<T>, c: seq<T>)
    ensures (a + b) + c == a + (b + c)
  {
  }

  /** The encode-start events for a list of frames, in order. */
  function EncodeStarts(frames: seq<VideoFrame>): (r: seq<Event>)
    ensures |r| == |frames|
    ensures forall i :: 0 <= i < |frames| ==> r[i] == EncodeStarted(frames[i])
  {
    if frames == [] then [] else [EncodeStarted(frames[0])] + EncodeStarts(frames[1..])
  }

  /** The records that encode starts of a list of frames would create, in order. */
  function EncodeRecords(frames: seq<VideoFrame>): (r: seq<FrameStats>)
    ensures |r| == |frames|
    ensures forall i :: 0 <= i < |frames| ==> r[i] == NewFrameStats(FrameKey(frames[i].timestamp_rtp, 0))
  {
    if frames == [] then [] else [NewFrameStats(FrameKey(frames[0].timestamp_rtp, 0))] + EncodeRecords(frames[1..])
  }

  /**
   * Encode starts of frames with pairwise distinct timestamps, none of which
   * has a layer-0 record yet, append exactly one record per frame, in the
   * order the frames arrived, each carrying its frame's timestamp.
   */
  lemma {:induction false} DistinctEncodeStartsAppendInOrder(stats: seq<FrameStats>, frames: seq<VideoFrame>)
    requires forall i, j :: 0 <= i < j < |frames| ==> frames[i].timestamp_rtp != frames[j].timestamp_rtp
    requires forall i :: 0 <= i < |frames| ==> !HasKey(stats, FrameKey(frames[i].timestamp_rtp, 0))
    ensures Run(stats, EncodeStarts(frames)) == stats + EncodeRecords(frames)
    decreases |frames|
  {
    if frames != [] {
      var events := EncodeStarts(frames);
      var rest := frames[1..];
      var first := NewFrameStats(FrameKey(frames[0].timestamp_rtp, 0));
      var next := Step(stats, events[0]);
      StepAppendsFresh(stats, events[0]);
      assert next == stats + [first];
      forall i | 0 <= i < |rest|
        ensures !HasKey(next, FrameKey(rest[i].timestamp_rtp, 0))
      {
        assert rest[i] == frames[i + 1];
        StepHasKey(stats, events[0], FrameKey(rest[i].timestamp_rtp, 0));
      }
      DistinctEncodeStartsAppendInOrder(next, rest);
      assert events[1..] == EncodeStarts(rest);
      assert EncodeRecords(frames) == [first] + EncodeRecords(rest);
      AppendAssociative(stats, [first], EncodeRecords(rest));
    }
  }
}
