/**
 * The frame-sampling loop (process_video in main.py) and the state it
 * writes: the shared preview slot, the traffic_data table and the stream of
 * 'update' events.
 *
 * The environment is given as values: the video is a sequence of reads, each
 * successful read carrying the frame, the detector's answer for it and the
 * wall-clock reading taken if that frame is processed; the database is one
 * success flag per attempted commit, in order of attempts.
 */
module Pipeline {
  import opened Wrappers
  import opened Detection

  /** The junction label every record of this deployment carries. */
  const Junction: string := "main_junction"

  /** The resolution a frame is resized to before detection. */
  const TargetWidth: nat := 640
  const TargetHeight: nat := 480

  /** A row of the traffic_data table; `id` is assigned by the store. */
  datatype TrafficData = TrafficData(
    id: nat,
    junction: string,
    totalCount: int,
    carCount: int,
    busCount: int,
    truckCount: int,
    motorcycleCount: int,
    timestamp: nat)

  /** The payload of one 'update' event; `time` is the record's timestamp. */
  datatype Update = Update(
    junction: string,
    count: int,
    car: int,
    bus: int,
    truck: int,
    motorcycle: int,
    time: nat)

  /** One frame as read from the video, with what the environment answers for it. */
  datatype Capture = Capture(frame: Frame, detection: DetectorResult, clock: nat)

  /** The outcome of one `cap.read()`. */
  datatype Read = Grabbed(capture: Capture) | ReadFailed

  /** The video source: missing file, a file that cannot be opened, or a stream of reads. */
  datatype Video = Missing | Unopenable | Opened(stream: seq<Read>)

  /** A record is consistent when its total is the sum of its four non-negative counts. */
  predicate Consistent(r: TrafficData)
  {
    && 0 <= r.carCount && 0 <= r.busCount && 0 <= r.truckCount && 0 <= r.motorcycleCount
    && r.totalCount == r.carCount + r.busCount + r.truckCount + r.motorcycleCount
  }

  /** The table as this core leaves it: rows numbered 1, 2, ... in insertion order, all consistent. */
  predicate WellFormed(table: seq<TrafficData>)
  {
    forall i :: 0 <= i < |table| ==> table[i].id == i + 1 && Consistent(table[i])
  }

  /** cv2.resize to the target resolution: the same picture at 640x480. */
  function Resize(f: Frame): (r: Frame)
    ensures r.width == TargetWidth && r.height == TargetHeight
    ensures r.content == f.content && r.overlays == f.overlays
  {
    f.(width := TargetWidth, height := TargetHeight)
  }

  /** The annotated output of a processed frame, as stored in the preview slot. */
  function Processed(c: Capture): (r: Frame)
    ensures r.width == TargetWidth && r.height == TargetHeight && r.content == c.frame.content
  {
    Annotate(Resize(c.frame), c.detection)
  }

  /** The row built for a processed frame, with the id the store gives it. */
  function RecordFor(c: Capture, id: nat): (r: TrafficData)
    ensures Consistent(r) && r.junction == Junction && r.id == id && r.timestamp == c.clock
    ensures r.totalCount == TotalOf(c.detection)
    ensures c.detection.Fail? ==>
              r.totalCount == r.carCount == r.busCount == r.truckCount == r.motorcycleCount == 0
    ensures c.detection.Boxes? ==> r.totalCount <= |c.detection.labels|
    ensures c.detection.Boxes? ==>
              && r.carCount == Occurrences(c.detection.labels, "car")
              && r.busCount == Occurrences(c.detection.labels, "bus")
              && r.truckCount == Occurrences(c.detection.labels, "truck")
              && r.motorcycleCount == Occurrences(c.detection.labels, "motorcycle")
  {
    var counts := CountsOf(c.detection);
    TrafficData(id, Junction, TotalOf(c.detection),
                counts["car"], counts["bus"], counts["truck"], counts["motorcycle"], c.clock)
  }

  /** The event that mirrors a record. */
  function EventOf(r: TrafficData): Update
  {
    Update(r.junction, r.totalCount, r.carCount, r.busCount, r.truckCount, r.motorcycleCount, r.timestamp)
  }

  /**
   * The frames read before the first failed read: reading stops either at
   * the end of the stream or at a failed read (see ReadableIsLeadingReads).
   */
  function Readable(stream: seq<Read>): (r: seq<Capture>)
    ensures |r| <= |stream|
    ensures |r| < |stream| ==> stream[|r|].ReadFailed?
  {
    if stream == [] || stream[0].ReadFailed? then []
    else [stream[0].capture] + Readable(stream[1..])
  }

  /** Frames a video yields; none when it is missing or cannot be opened. */
  function Frames(v: Video): seq<Capture>
  {
    if v.Opened? then Readable(v.stream) else []
  }

  /** The frames whose 1-based position is a multiple of 10 (the frame-skip stride of main.py), in order. */
  function Sampled(frames: seq<Capture>): (r: seq<Capture>)
    ensures |r| <= |frames|
  {
    if frames == [] then []
    else Sampled(frames[..|frames| - 1]) + (if |frames| % 10 == 0 then [frames[|frames| - 1]] else [])
  }

  /** Whether the k-th attempted commit (from 0) succeeds; a missing flag is a failure. */
  predicate CommitSucceeds(commits: seq<bool>, k: nat)
  {
    k < |commits| && commits[k]
  }

  /** The number of successful commits among the first n attempts. */
  function Successes(commits: seq<bool>, n: nat): nat
  {
    if n == 0 then 0 else Successes(commits, n - 1) + (if CommitSucceeds(commits, n - 1) then 1 else 0)
  }

  /**
   * The table after processing the frames `s`, starting from `table0`: the
   * row of each processed frame is appended, with the next id, when its
   * commit succeeds, and nothing is appended when it fails.
   */
  function TableAfter(table0: seq<TrafficData>, s: seq<Capture>, commits: seq<bool>): (r: seq<TrafficData>)
    ensures |r| == |table0| + Successes(commits, |s|)
  {
    if s == [] then table0
    else
      var prev := TableAfter(table0, s[..|s| - 1], commits);
      if CommitSucceeds(commits, |s| - 1) then prev + [RecordFor(s[|s| - 1], |prev| + 1)] else prev
  }

  /** The event emitted for a processed frame whose row was committed. */
  function UpdateFor(c: Capture): (u: Update)
    ensures u.junction == Junction && u.time == c.clock && u.count == TotalOf(c.detection)
    ensures 0 <= u.car && 0 <= u.bus && 0 <= u.truck && 0 <= u.motorcycle
    ensures u.count == u.car + u.bus + u.truck + u.motorcycle
    ensures c.detection.Boxes? ==>
              && u.car == Occurrences(c.detection.labels, "car")
              && u.bus == Occurrences(c.detection.labels, "bus")
              && u.truck == Occurrences(c.detection.labels, "truck")
              && u.motorcycle == Occurrences(c.detection.labels, "motorcycle")
  {
    var counts := CountsOf(c.detection);
    Update(Junction, TotalOf(c.detection), counts["car"], counts["bus"], counts["truck"], counts["motorcycle"], c.clock)
  }

  /** The events after processing the frames `s`, starting from `emitted0`: one per committed row. */
  function EmittedAfter(emitted0: seq<Update>, s: seq<Capture>, commits: seq<bool>): (r: seq<Update>)
    ensures |r| == |emitted0| + Successes(commits, |s|)
  {
    if s == [] then emitted0
    else
      var prev := EmittedAfter(emitted0, s[..|s| - 1], commits);
      if CommitSucceeds(commits, |s| - 1) then prev + [UpdateFor(s[|s| - 1])] else prev
  }

  /** The events that mirror a sequence of rows, in the same order. */
  function EventsOf(rows: seq<TrafficData>): (r: seq<Update>)
    ensures |r| == |rows|
  {
    if rows == [] then [] else EventsOf(rows[..|rows| - 1]) + [EventOf(rows[|rows| - 1])]
  }

  /** The preview slot after processing `s`, starting from `initial`. */
  function PreviewAfter(s: seq<Capture>, initial: Option<Frame>): (r: Option<Frame>)
    ensures s == [] ==> r == initial
    ensures s != [] ==> r.Some? && r.value.width == TargetWidth && r.value.height == TargetHeight
                        && r.value.content == s[|s| - 1].frame.content
  {
    if s == [] then initial else Some(Processed(s[|s| - 1]))
  }

  /** The preview slot keeps only the last write: processing `a` and then `b` leaves what `b` leaves, unless `b` is empty. */
  lemma PreviewAfterOverwrite(a: seq<Capture>, b: seq<Capture>, initial: Option<Frame>)
    ensures PreviewAfter(a + b, initial) == PreviewAfter(b, PreviewAfter(a, initial))
  {
    if b == [] {
      assert a + b == a;
    } else {
      assert (a + b)[|a + b| - 1] == b[|b| - 1];
    }
  }

  /** The global state process_video writes and the routes read. */
  class TrafficApp {
    /** frame_for_preview */
    var preview: Option<Frame>
    /** The traffic_data table, in insertion order. */
    var table: seq<TrafficData>
    /** The 'update' events emitted on the socket, in order. */
    var emitted: seq<Update>

    ghost predicate Valid()
      reads this
    {
      WellFormed(table)
    }

    /** The state at start-up: no preview, nothing emitted, the table as stored. */
    constructor (stored: seq<TrafficData>)
      requires WellFormed(stored)
      ensures Valid()
      ensures preview == None && table == stored && emitted == []
    {
      preview := None;
      table := stored;
      emitted := [];
    }

    /**
     * The body of process_video's loop for a frame that is processed:
     * resize, detect and count, overwrite the preview, then try to commit
     * the row; the event is emitted only when `commitOk`, the outcome of
     * session.commit(), says the row went in.
     */
    method ProcessFrame(c: Capture, commitOk: bool)
      requires Valid()
      modifies this
      ensures Valid()
      ensures preview == Some(Processed(c))
      ensures table == old(table) + (if commitOk then [RecordFor(c, |old(table)| + 1)] else [])
      ensures emitted == old(emitted) + (if commitOk then [UpdateFor(c)] else [])
    {
      var frame := Resize(c.frame);
      var totalCount, classCounts, annotated := DetectVehicles(frame, c.detection);
      preview := Some(annotated);
      var timestamp := c.clock;
      if commitOk {
        var entry := TrafficData(|table| + 1, Junction, totalCount, classCounts["car"], classCounts["bus"],
                                 classCounts["truck"], classCounts["motorcycle"], timestamp);
        table := table + [entry];
        emitted := emitted + [Update(Junction, totalCount, classCounts["car"], classCounts["bus"],
                                     classCounts["truck"], classCounts["motorcycle"], timestamp)];
      } else {
        // session.rollback(): the row is dropped and nothing is emitted
        assert table + [] == table && emitted + [] == emitted;
      }
    }

    /**
     * ProcessFrame for the next processed frame of a run, stated against the
     * run's reference outcome: when the state is the outcome of processing
     * `sampled`, it becomes the outcome of processing `sampled + [c]`.
     */
    method ProcessSampled(c: Capture, commitOk: bool, ghost table0: seq<TrafficData>, ghost emitted0: seq<Update>,
                          ghost preview0: Option<Frame>, ghost sampled: seq<Capture>, ghost commits: seq<bool>)
      requires Valid()
      requires commitOk == CommitSucceeds(commits, |sampled|)
      requires table == TableAfter(table0, sampled, commits) && emitted == EmittedAfter(emitted0, sampled, commits)
      modifies this
      ensures Valid()
      ensures table == TableAfter(table0, sampled + [c], commits)
      ensures emitted == EmittedAfter(emitted0, sampled + [c], commits)
      ensures preview == PreviewAfter(sampled + [c], preview0)
    {
      OutcomeStep(table0, emitted0, sampled, c, commits, preview0, table, emitted, commitOk);
      ProcessFrame(c, commitOk);
    }

    /**
     * process_video: returns at once when the video file is missing or
     * cannot be opened; otherwise runs the sampling loop over its frames.
     */
    method ProcessVideo(video: Video, commits: seq<bool>)
      requires Valid()
      modifies this
      ensures Valid()
      ensures table == TableAfter(old(table), Sampled(Frames(video)), commits)
      ensures emitted == EmittedAfter(old(emitted), Sampled(Frames(video)), commits)
      ensures preview == PreviewAfter(Sampled(Frames(video)), old(preview))
      ensures !video.Opened? ==> table == old(table) && emitted == old(emitted) && preview == old(preview)
    {
      if video.Missing? {
        // "Video file not found"
        return;
      }
      if video.Unopenable? {
        // "Error opening video file"
        return;
      }
      SamplingLoop(video.stream, commits);
    }

    /**
     * The while loop of process_video: reads frames until a read fails,
     * counts them from 1, and processes every frame whose number is a
     * multiple of the stride.
     */
    method SamplingLoop(stream: seq<Read>, commits: seq<bool>)
      requires Valid()
      modifies this
      ensures Valid()
      ensures table == TableAfter(old(table), Sampled(Readable(stream)), commits)
      ensures emitted == EmittedAfter(old(emitted), Sampled(Readable(stream)), commits)
      ensures preview == PreviewAfter(Sampled(Readable(stream)), old(preview))
    {
      ghost var table0, emitted0, preview0 := table, emitted, preview;
      ghost var seen: seq<Capture> := [];
      ghost var sampled: seq<Capture> := [];
      var frameCount := 0;
      // commits attempted so far: the position in the database's answers
      var attempts := 0;
      var i := 0;
      while i < |stream|
        invariant 0 <= i <= |stream|
        invariant frameCount == |seen| == i
        invariant forall j :: 0 <= j < i ==> stream[j] == Grabbed(seen[j])
        invariant sampled == Sampled(seen)
        invariant attempts == |sampled|
        invariant Valid()
        invariant table == TableAfter(table0, sampled, commits)
        invariant emitted == EmittedAfter(emitted0, sampled, commits)
        invariant preview == PreviewAfter(sampled, preview0)
      {
        var r := stream[i];
        if r.ReadFailed? {
          break;
        }
        var c := r.capture;
        SampleStep(seen, c);
        seen := seen + [c];
        i := i + 1;
        frameCount := frameCount + 1;
        if frameCount % 10 != 0 {
          continue;
        }
        var commitOk := CommitSucceeds(commits, attempts);
        ProcessSampled(c, commitOk, table0, emitted0, preview0, sampled, commits);
        sampled := sampled + [c];
        attempts := attempts + 1;
      }
      LeadingReadsAreReadable(stream, seen);
    }
  }

  /** F readable frames yield exactly floor(F/10) processed frames. */
  lemma {:induction false} SampledLength(frames: seq<Capture>)
    ensures |Sampled(frames)| == |frames| / 10
  {
    if frames != [] {
      SampledLength(frames[..|frames| - 1]);
    }
  }

  /** The k-th processed frame (from 0) is frame number 10(k+1), counting frames from 1. */
  lemma {:induction false} SampledAt(frames: seq<Capture>, k: nat)
    requires k < |frames| / 10
    ensures |Sampled(frames)| == |frames| / 10
    ensures Sampled(frames)[k] == frames[10 * (k + 1) - 1]
  {
    SampledLength(frames);
    var init := frames[..|frames| - 1];
    SampledLength(init);
    if k < |Sampled(init)| {
      SampledAt(init, k);
    }
  }

  /** Reading one more frame samples it exactly when its 1-based position is a multiple of the stride. */
  lemma SampleStep(prev: seq<Capture>, c: Capture)
    ensures Sampled(prev + [c]) == Sampled(prev) + (if (|prev| + 1) % 10 == 0 then [c] else [])
  {
    var s := prev + [c];
    assert s[..|s| - 1] == prev;
  }

  /**
   * Processing one more frame appends its row, numbered next, and its event
   * when its commit succeeds, and neither when it fails; the preview is its
   * output either way.
   */
  lemma OutcomeStep(table0: seq<TrafficData>, emitted0: seq<Update>, s: seq<Capture>, c: Capture,
                    commits: seq<bool>, initial: Option<Frame>,
                    rows: seq<TrafficData>, events: seq<Update>, ok: bool)
    requires rows == TableAfter(table0, s, commits) && events == EmittedAfter(emitted0, s, commits)
    requires ok == CommitSucceeds(commits, |s|)
    ensures TableAfter(table0, s + [c], commits) == rows + (if ok then [RecordFor(c, |rows| + 1)] else [])
    ensures EmittedAfter(emitted0, s + [c], commits) == events + (if ok then [UpdateFor(c)] else [])
    ensures PreviewAfter(s + [c], initial) == Some(Processed(c))
  {
    assert (s + [c])[..|s|] == s;
    assert rows + [] == rows && events + [] == events;
  }

  /** The readable frames are exactly the captures of the reads before the first failure. */
  lemma {:induction false} ReadableIsLeadingReads(stream: seq<Read>)
    ensures forall j :: 0 <= j < |Readable(stream)| ==> stream[j] == Grabbed(Readable(stream)[j])
  {
    if stream != [] && stream[0].Grabbed? {
      ReadableIsLeadingReads(stream[1..]);
    }
  }

  /**
   * Conversely, frames read one by one until the stream ends or a read
   * fails are exactly the readable frames.
   */
  lemma {:induction false} LeadingReadsAreReadable(stream: seq<Read>, seen: seq<Capture>)
    requires |seen| <= |stream|
    requires forall j :: 0 <= j < |seen| ==> stream[j] == Grabbed(seen[j])
    requires |seen| == |stream| || stream[|seen|].ReadFailed?
    ensures Readable(stream) == seen
  {
    if seen != [] {
      var rest, later := stream[1..], seen[1..];
      assert forall j :: 0 <= j < |later| ==> rest[j] == stream[j + 1] && later[j] == seen[j + 1];
      LeadingReadsAreReadable(rest, later);
      assert seen == [seen[0]] + later;
    }
  }

  /** A run never changes the rows already in the table: it only appends. */
  lemma {:induction false} TableAfterKeepsRows(table0: seq<TrafficData>, s: seq<Capture>, commits: seq<bool>)
    ensures TableAfter(table0, s, commits)[..|table0|] == table0
  {
    if s != [] {
      var prev := TableAfter(table0, s[..|s| - 1], commits);
      TableAfterKeepsRows(table0, s[..|s| - 1], commits);
      if CommitSucceeds(commits, |s| - 1) {
        assert (prev + [RecordFor(s[|s| - 1], |prev| + 1)])[..|table0|] == prev[..|table0|];
      }
    }
  }

  /**
   * Failure isolation: the row of the k-th processed frame is in the table
   * whenever its own commit succeeds, whatever happened to the other
   * frames, right after the rows of the earlier successful commits and
   * with the id that follows them.
   */
  lemma {:induction false} TableAfterAt(table0: seq<TrafficData>, s: seq<Capture>, commits: seq<bool>, k: nat)
    requires k < |s| && CommitSucceeds(commits, k)
    ensures |table0| + Successes(commits, k) < |TableAfter(table0, s, commits)|
    ensures TableAfter(table0, s, commits)[|table0| + Successes(commits, k)]
              == RecordFor(s[k], |table0| + Successes(commits, k) + 1)
  {
    var init := s[..|s| - 1];
    if k < |s| - 1 {
      TableAfterAt(table0, init, commits, k);
      assert init[k] == s[k];
    }
  }

  lemma SuffixSnoc<T>(a: seq<T>, x: T, n: nat)
    requires n <= |a|
    ensures (a + [x])[n..] == a[n..] + [x]
  {
  }

  lemma SnocAssoc<T>(a: seq<T>, b: seq<T>, x: T)
    ensures (a + b) + [x] == a + (b + [x])
  {
  }

  /** The event emitted for a frame carries exactly the fields of its row, without the id. */
  lemma EventOfRecord(c: Capture, id: nat)
    ensures EventOf(RecordFor(c, id)) == UpdateFor(c)
  {
  }

  lemma EventsOfSnoc(rows: seq<TrafficData>, r: TrafficData)
    ensures EventsOf(rows + [r]) == EventsOf(rows) + [EventOf(r)]
  {
    assert (rows + [r])[..|rows|] == rows;
  }

  /** The events a run emits are exactly the events of the rows it appends, in the same order. */
  lemma {:induction false} EventsMirrorRows(table0: seq<TrafficData>, emitted0: seq<Update>, s: seq<Capture>, commits: seq<bool>)
    ensures EmittedAfter(emitted0, s, commits) == emitted0 + EventsOf(TableAfter(table0, s, commits)[|table0|..])
  {
    if s == [] {
      assert TableAfter(table0, s, commits)[|table0|..] == [];
      assert emitted0 + [] == emitted0;
    } else {
      var init := s[..|s| - 1];
      var c := s[|s| - 1];
      var prev := TableAfter(table0, init, commits);
      var events := EmittedAfter(emitted0, init, commits);
      EventsMirrorRows(table0, emitted0, init, commits);
      if CommitSucceeds(commits, |s| - 1) {
        var row := RecordFor(c, |prev| + 1);
        var added := prev[|table0|..];
        SuffixSnoc(prev, row, |table0|);
        EventsOfSnoc(added, row);
        EventOfRecord(c, |prev| + 1);
        SnocAssoc(emitted0, EventsOf(added), UpdateFor(c));
      }
    }
  }

  /** A run keeps the table numbered by insertion and every row consistent. */
  lemma {:induction false} TableAfterKeepsWellFormed(table0: seq<TrafficData>, s: seq<Capture>, commits: seq<bool>)
    requires WellFormed(table0)
    ensures WellFormed(TableAfter(table0, s, commits))
  {
    if s != [] {
      TableAfterKeepsWellFormed(table0, s[..|s| - 1], commits);
    }
  }

  /** The clock the environment supplies never runs backwards. */
  predicate ClockMonotone(s: seq<Capture>)
  {
    forall i, j :: 0 <= i <= j < |s| ==> s[i].clock <= s[j].clock
  }

  /** Every row a run appends carries the clock reading of one of its frames, so none is later than the last. */
  lemma {:induction false} TableAfterTimesBounded(table0: seq<TrafficData>, s: seq<Capture>, commits: seq<bool>)
    requires s != [] && ClockMonotone(s)
    ensures forall j :: |table0| <= j < |TableAfter(table0, s, commits)| ==>
              TableAfter(table0, s, commits)[j].timestamp <= s[|s| - 1].clock
  {
    var init := s[..|s| - 1];
    if init != [] {
      assert ClockMonotone(init);
      TableAfterTimesBounded(table0, init, commits);
    }
  }

  /** With a clock that never runs backwards, the rows a run appends have non-decreasing timestamps. */
  lemma {:induction false} TableAfterInTimeOrder(table0: seq<TrafficData>, s: seq<Capture>, commits: seq<bool>)
    requires ClockMonotone(s)
    ensures forall i, j :: |table0| <= i <= j < |TableAfter(table0, s, commits)| ==>
              TableAfter(table0, s, commits)[i].timestamp <= TableAfter(table0, s, commits)[j].timestamp
  {
    if s != [] {
      var init := s[..|s| - 1];
      assert ClockMonotone(init);
      TableAfterInTimeOrder(table0, init, commits);
      if init != [] {
        TableAfterTimesBounded(table0, init, commits);
      }
    }
  }

  /** Sampling keeps the frames in reading order, so it keeps a monotone clock monotone. */
  lemma SampledClockMonotone(frames: seq<Capture>)
    requires ClockMonotone(frames)
    ensures ClockMonotone(Sampled(frames))
  {
    SampledLength(frames);
    forall i, j | 0 <= i <= j < |Sampled(frames)|
      ensures Sampled(frames)[i].clock <= Sampled(frames)[j].clock
    {
      SampledAt(frames, i);
      SampledAt(frames, j);
    }
  }

  /** The last processed frame of a run over at least 10 frames is frame number 10 * floor(F/10). */
  lemma SampledLast(frames: seq<Capture>)
    requires |frames| >= 10
    ensures |Sampled(frames)| == |frames| / 10
    ensures Sampled(frames)[|frames| / 10 - 1] == frames[10 * (|frames| / 10) - 1]
  {
    var k := |frames| / 10 - 1;
    SampledAt(frames, k);
    assert 10 * (k + 1) - 1 == 10 * (|frames| / 10) - 1;
  }

  /**
   * After a run the preview holds the output of the last processed frame,
   * frame number 10 * floor(F/10); it is still empty exactly when fewer
   * than 10 frames could be read.
   */
  lemma PreviewAfterRun(frames: seq<Capture>, initial: Option<Frame>)
    ensures PreviewAfter(Sampled(frames), None).None? <==> |frames| < 10
    ensures |frames| >= 10 ==>
              PreviewAfter(Sampled(frames), initial) == Some(Processed(frames[10 * (|frames| / 10) - 1]))
    ensures |frames| < 10 ==> PreviewAfter(Sampled(frames), initial) == initial
  {
    SampledLength(frames);
    if |frames| >= 10 {
      SampledLast(frames);
      var s := Sampled(frames);
      var last := frames[10 * (|frames| / 10) - 1];
      assert s[|s| - 1] == last;
    }
  }

  /**
   * A run over F readable frames attempts floor(F/10) commits and appends
   * one row and one event per successful commit among them; when every
   * commit succeeds, that is floor(F/10) rows.
   */
  lemma RunCounts(video: Video, commits: seq<bool>, table0: seq<TrafficData>, emitted0: seq<Update>)
    ensures var s := Sampled(Frames(video));
            && |s| == |Frames(video)| / 10
            && |TableAfter(table0, s, commits)| - |table0| == |EmittedAfter(emitted0, s, commits)| - |emitted0|
               == Successes(commits, |s|)
    ensures (forall k :: 0 <= k < |commits| ==> commits[k]) && |Frames(video)| / 10 <= |commits| ==>
              |TableAfter(table0, Sampled(Frames(video)), commits)| == |table0| + |Frames(video)| / 10
  {
    var s := Sampled(Frames(video));
    SampledLength(Frames(video));
    if (forall k :: 0 <= k < |commits| ==> commits[k]) && |s| <= |commits| {
      AllSucceed(commits, |s|);
    }
  }

  /** When every attempt up to n succeeds, there are n successes. */
  lemma {:induction false} AllSucceed(commits: seq<bool>, n: nat)
    requires n <= |commits| && forall k :: 0 <= k < |commits| ==> commits[k]
    ensures Successes(commits, n) == n
  {
    if n > 0 {
      AllSucceed(commits, n - 1);
    }
  }
}
