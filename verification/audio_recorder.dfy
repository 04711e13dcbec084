/**
  The voice-activity recorder hook as an event-driven state machine: start,
  periodic amplitude samples with a silence timer, a guarded stop, recorded
  chunks, and the recorder's stop notification that delivers the clip.
  Times are milliseconds supplied with the events; the browser audio objects
  are reduced to the flags and values the hook reads and writes.
 */
module AudioRecorder {
  import opened Types

  /** One unsigned byte of the analyser's time-domain buffer. */
  newtype Byte = x: int | 0 <= x < 256

  /** The silence timeout: recording stops this long after the first quiet sample. */
  const SilenceTimeoutMs: int := 2200

  /** The media type of every delivered clip. */
  const ClipMimeType := "audio/webm;codecs=opus"

  // ============================================================ amplitude

  /** The squared distance of one sample from the midpoint 128, in units of 1/128. */
  function Deviation(b: Byte): (d: nat)
    ensures d <= 16384
  {
    var x := b as int - 128;
    x * x
  }

  /** The sum of the squared deviations of a buffer. */
  function SumSquares(buf: seq<Byte>): (s: nat)
    ensures s <= 16384 * |buf|
  {
    if buf == [] then 0 else Deviation(buf[0]) + SumSquares(buf[1..])
  }

  /**
    The square of the root-mean-square amplitude of `(a / 128 - 1)` over the
    buffer. An empty buffer divides zero by zero, which is `NaN`: `None`.
   */
  function MeanSquare(buf: seq<Byte>): (ms: Option<real>)
    ensures ms.None? <==> buf == []
    ensures ms.Some? ==> 0.0 <= ms.value <= 1.0
  {
    if buf == [] then None
    else Some(SumSquares(buf) as real / (16384.0 * |buf| as real))
  }

  /** A silent buffer (every byte at the midpoint) has amplitude zero. */
  lemma {:induction false} MidpointIsSilent(buf: seq<Byte>)
    requires forall k :: 0 <= k < |buf| ==> buf[k] == 128
    ensures SumSquares(buf) == 0
    ensures buf != [] ==> MeanSquare(buf) == Some(0.0)
  {
    if buf != [] {
      MidpointIsSilent(buf[1..]);
    }
  }

  /**
    The test `rms < 0.01` in integers: the root mean square is below 0.01
    exactly when `10000 * sum < 16384 * n`. `NaN < 0.01` is false, so an
    empty buffer is not quiet.
   */
  predicate Quiet(buf: seq<Byte>)
  {
    |buf| > 0 && 10000 * SumSquares(buf) < 16384 * |buf|
  }

  /** The integer test agrees with the threshold on the mean square: `rms < 0.01` iff `rms² < 0.0001`. */
  lemma QuietIffBelowThreshold(buf: seq<Byte>)
    ensures Quiet(buf) <==> MeanSquare(buf).Some? && MeanSquare(buf).value < 0.0001
  {
    if buf != [] {
      var s := SumSquares(buf) as real;
      var d := 16384.0 * |buf| as real;
      DivBelow(s, d, 0.0001);
      assert (10000 * SumSquares(buf)) as real == 10000.0 * s;
      assert (16384 * |buf|) as real == d;
    }
  }

  /** Dividing by a positive number keeps the comparison with a bound scaled by it. */
  lemma DivBelow(s: real, d: real, c: real)
    requires d > 0.0
    ensures s / d < c <==> s < c * d
  {
    var q := s / d;
    assert q * d == s;
    if q < c {
      assert q * d < c * d;
    } else {
      assert q * d >= c * d;
    }
  }

  // ============================================================ the state

  /** The `state` of the media recorder object. */
  datatype MediaState = Recording | Inactive

  /** One chunk of encoded audio, as the recorder hands it over. */
  datatype Chunk = Chunk(data: seq<Byte>)

  /** What the finished-recording callback receives. */
  datatype Clip = Clip(chunks: seq<Chunk>, mimeType: string, durationMs: int)

  /**
    The hook's state and refs: the recorder (absent before the first start),
    the exposed `isRecording` and amplitude (as its square; `None` for `NaN`),
    whether the amplitude interval runs, the silence timer's deadline, the
    session's chunks and start time, the audio graph, a stop awaiting the
    recorder's notification, and the clips delivered so far.
   */
  datatype Recorder = Recorder(
    recorder: Option<MediaState>,
    isRecording: bool,
    amplitudeSq: Option<real>,
    sampling: bool,
    silenceDeadline: Option<int>,
    chunks: seq<Chunk>,
    startTime: int,
    analyser: bool,
    streamLive: bool,
    contextOpen: bool,
    stopPending: bool,
    delivered: seq<Clip>)

  /** Before the first start. */
  const Fresh := Recorder(None, false, Some(0.0), false, None, [], 0, false, false, false, false, [])

  /** The things that happen to the recorder. */
  datatype Event =
      /** `startRecording` at time `now`; `micOk` is false when microphone access is refused. */
    | Start(micOk: bool, now: int)
      /** The amplitude interval fired and read this buffer at time `now`. */
    | Sample(now: int, buf: seq<Byte>)
      /** The silence timer's time came: the clock reads `now`. */
    | SilenceElapsed(now: int)
      /** `stopRecording` called by the user. */
    | Stop
      /** The recorder delivered a chunk of audio. */
    | DataAvailable(chunk: Chunk)
      /** The recorder reports that it stopped, at time `now`. */
    | RecorderStopped(now: int)

  // ======================================================== the transitions

  /**
    stopRecording: only a recorder that is recording is stopped; then the
    amplitude interval and any silence timer are cleared and the amplitude
    drops to zero. The clip follows with the recorder's notification.
   */
  function StopRecording(r: Recorder): (next: Recorder)
    ensures r.recorder != Some(Recording) ==> next == r
    ensures r.recorder == Some(Recording) ==>
              && next.recorder == Some(Inactive) && next.stopPending
              && !next.sampling && next.silenceDeadline.None? && next.amplitudeSq == Some(0.0)
              && next.chunks == r.chunks && next.isRecording == r.isRecording && next.delivered == r.delivered
              && next.startTime == r.startTime
  {
    if r.recorder != Some(Recording) then r
    else r.(recorder := Some(Inactive), stopPending := true, sampling := false, silenceDeadline := None, amplitudeSq := Some(0.0))
  }

  /** Stopping twice is stopping once. */
  lemma StopIdempotent(r: Recorder)
    ensures StopRecording(StopRecording(r)) == StopRecording(r)
  {
  }

  /**
    updateAmplitude: publish the amplitude; a quiet sample arms the silence
    timer unless one is already pending, a loud one cancels it.
   */
  function UpdateAmplitude(r: Recorder, now: int, buf: seq<Byte>): (next: Recorder)
    ensures !r.analyser ==> next == r
    ensures r.analyser ==> next.amplitudeSq == MeanSquare(buf)
    ensures r.analyser && Quiet(buf) && r.silenceDeadline.None? ==> next.silenceDeadline == Some(now + 2200)
    ensures r.analyser && Quiet(buf) && r.silenceDeadline.Some? ==> next.silenceDeadline == r.silenceDeadline
    ensures r.analyser && !Quiet(buf) ==> next.silenceDeadline.None?
    ensures next.recorder == r.recorder && next.sampling == r.sampling && next.chunks == r.chunks
  {
    if !r.analyser then r
    else
      var measured := r.(amplitudeSq := MeanSquare(buf));
      if Quiet(buf) then
        if r.silenceDeadline.None? then measured.(silenceDeadline := Some(now + SilenceTimeoutMs)) else measured
      else measured.(silenceDeadline := None)
  }

  /**
    startRecording: on success a fresh session begins (empty chunks, start
    time, recording flag, a new amplitude interval); on failure only the
    recording flag is cleared.
   */
  function StartRecording(r: Recorder, micOk: bool, now: int): (next: Recorder)
    ensures !micOk ==> next == r.(isRecording := false)
    ensures micOk ==>
              && next.recorder == Some(Recording) && next.isRecording && next.sampling
              && next.chunks == [] && next.startTime == now && !next.stopPending
              && next.streamLive && next.contextOpen && next.analyser
              && next.silenceDeadline == r.silenceDeadline && next.delivered == r.delivered
  {
    if !micOk then r.(isRecording := false)
    else
      r.(recorder := Some(Recording), isRecording := true, sampling := true, chunks := [], startTime := now,
         stopPending := false, streamLive := true, contextOpen := true, analyser := true)
  }

  /**
    The recorder's stop notification: the session's chunks, in arrival order,
    become one clip with its duration; then the flag drops and the
    microphone and audio context are released.
   */
  function OnStop(r: Recorder, now: int): (next: Recorder)
    requires r.stopPending
    ensures next.delivered == r.delivered + [Clip(r.chunks, "audio/webm;codecs=opus", now - r.startTime)]
    ensures !next.isRecording && !next.streamLive && !next.contextOpen && !next.stopPending
    ensures next.recorder == r.recorder && next.chunks == r.chunks
  {
    r.(delivered := r.delivered + [Clip(r.chunks, ClipMimeType, now - r.startTime)],
       isRecording := false, streamLive := false, contextOpen := false, stopPending := false)
  }

  /** What the hook does with one event. */
  function Step(r: Recorder, e: Event): Recorder
  {
    match e
    case Start(micOk, now) => StartRecording(r, micOk, now)
    case Sample(now, buf) => if r.sampling then UpdateAmplitude(r, now, buf) else r
    case SilenceElapsed(now) =>
      if r.silenceDeadline.Some? && now >= r.silenceDeadline.value then StopRecording(r) else r
    case Stop => StopRecording(r)
    case DataAvailable(chunk) =>
      if r.recorder == Some(Recording) || r.stopPending then r.(chunks := r.chunks + [chunk]) else r
    case RecorderStopped(now) => if r.stopPending then OnStop(r, now) else r
  }

  // ============================================================ invariant

  /** A pending silence timer implies sampling, and sampling implies a recording recorder with an analyser. */
  predicate Inv(r: Recorder)
  {
    && (r.silenceDeadline.Some? ==> r.sampling)
    && (r.sampling ==> r.recorder == Some(Recording) && r.analyser)
    && (r.stopPending ==> r.recorder == Some(Inactive))
    && (r.amplitudeSq.Some? ==> 0.0 <= r.amplitudeSq.value <= 1.0)
  }

  lemma FreshInv()
    ensures Inv(Fresh)
  {
  }

  /**
    Every event keeps the invariant, so a pending silence timer always finds
    a recording recorder when it fires.
   */
  lemma StepPreservesInv(r: Recorder, e: Event)
    requires Inv(r)
    ensures Inv(Step(r, e))
  {
  }

  /**
    A silence timer stops the recording exactly like the stop button once its
    deadline has come, and does nothing before.
   */
  lemma SilenceStopsRecording(r: Recorder, now: int)
    requires Inv(r) && r.silenceDeadline.Some?
    ensures now >= r.silenceDeadline.value ==>
              && Step(r, SilenceElapsed(now)) == Step(r, Stop)
              && Step(r, SilenceElapsed(now)).recorder == Some(Inactive) && Step(r, SilenceElapsed(now)).stopPending
    ensures now < r.silenceDeadline.value ==> Step(r, SilenceElapsed(now)) == r
  {
  }

  // ====================================================== sample sequences

  /** The amplitude interval firing with these buffers, at these times, in order. */
  function Samples(r: Recorder, trace: seq<(int, seq<Byte>)>): Recorder
    decreases |trace|
  {
    if trace == [] then r else Samples(Step(r, Sample(trace[0].0, trace[0].1)), trace[1..])
  }

  /** The length of the run of quiet buffers at the end of a trace. */
  function QuietSuffix(trace: seq<(int, seq<Byte>)>): (n: nat)
    ensures n <= |trace|
    ensures forall k :: |trace| - n <= k < |trace| ==> Quiet(trace[k].1)
    ensures n < |trace| ==> !Quiet(trace[|trace| - n - 1].1)
  {
    if trace == [] || !Quiet(trace[|trace| - 1].1) then 0
    else 1 + QuietSuffix(trace[..|trace| - 1])
  }

  /** Sampling `a` then `b` is sampling `a + b`. */
  lemma {:induction false} SamplesAppend(r: Recorder, a: seq<(int, seq<Byte>)>, b: seq<(int, seq<Byte>)>)
    ensures Samples(r, a + b) == Samples(Samples(r, a), b)
    decreases |a|
  {
    if a == [] {
      assert a + b == b;
    } else {
      assert (a + b)[0] == a[0];
      assert (a + b)[1..] == a[1..] + b;
      assert Samples(r, a + b) == Samples(Step(r, Sample(a[0].0, a[0].1)), a[1..] + b);
      SamplesAppend(Step(r, Sample(a[0].0, a[0].1)), a[1..], b);
    }
  }

  /** Sampling keeps the recorder, the interval, the analyser and the chunks. */
  lemma {:induction false} SamplesKeepSession(r: Recorder, trace: seq<(int, seq<Byte>)>)
    ensures Samples(r, trace).sampling == r.sampling && Samples(r, trace).analyser == r.analyser
    ensures Samples(r, trace).recorder == r.recorder && Samples(r, trace).chunks == r.chunks
    decreases |trace|
  {
    if trace != [] {
      SamplesKeepSession(Step(r, Sample(trace[0].0, trace[0].1)), trace[1..]);
    }
  }

  /**
    The silence deadline a trace leaves behind, stated without the machine:
    none after a loud last sample; 2200 ms after the first sample of the
    trailing quiet run; or the deadline already pending when the whole trace
    was quiet.
   */
  function ExpectedDeadline(prior: Option<int>, trace: seq<(int, seq<Byte>)>): Option<int>
  {
    var n := QuietSuffix(trace);
    if trace == [] then prior
    else if n == 0 then None
    else if n == |trace| && prior.Some? then prior
    else Some(trace[|trace| - n].0 + SilenceTimeoutMs)
  }

  /** Appending one sample extends the trailing quiet run or ends it. */
  lemma QuietSuffixSnoc(init: seq<(int, seq<Byte>)>, last: (int, seq<Byte>))
    ensures QuietSuffix(init + [last]) == if Quiet(last.1) then 1 + QuietSuffix(init) else 0
  {
    assert (init + [last])[..|init|] == init;
  }

  /** One more sample moves the expected deadline exactly as the amplitude update does. */
  lemma ExpectedDeadlineSnoc(prior: Option<int>, init: seq<(int, seq<Byte>)>, last: (int, seq<Byte>))
    ensures ExpectedDeadline(prior, init + [last])
         == if !Quiet(last.1) then None
            else if ExpectedDeadline(prior, init).Some? then ExpectedDeadline(prior, init)
            else Some(last.0 + SilenceTimeoutMs)
  {
    var trace := init + [last];
    QuietSuffixSnoc(init, last);
    var n := QuietSuffix(init);
    if Quiet(last.1) {
      if init != [] && 0 < n {
        assert trace[|trace| - (n + 1)] == init[|init| - n];
      }
      if init != [] && n == 0 {
        assert trace[|trace| - 1] == last;
      }
    }
  }

  /**
    The silence window is measured from the first quiet sample: while
    sampling, the machine's deadline after any trace is the expected one, so
    a quiet sample never pushes a pending deadline back.
   */
  lemma {:induction false} SilenceDeadlineFromFirstQuiet(r: Recorder, trace: seq<(int, seq<Byte>)>)
    requires r.sampling && r.analyser
    ensures Samples(r, trace).silenceDeadline == ExpectedDeadline(r.silenceDeadline, trace)
    decreases |trace|
  {
    if trace != [] {
      var init := trace[..|trace| - 1];
      var last := trace[|trace| - 1];
      assert trace == init + [last];
      SamplesAppend(r, init, [last]);
      SilenceDeadlineFromFirstQuiet(r, init);
      SamplesKeepSession(r, init);
      ExpectedDeadlineSnoc(r.silenceDeadline, init, last);
    }
  }

  /** Chunks arrive in order: delivering `cs` one by one appends them as a block. */
  function DeliverChunks(r: Recorder, cs: seq<Chunk>): Recorder
    decreases |cs|
  {
    if cs == [] then r else DeliverChunks(Step(r, DataAvailable(cs[0])), cs[1..])
  }

  /** While the recorder records, delivered chunks are kept in arrival order. */
  lemma {:induction false} ChunksInArrivalOrder(r: Recorder, cs: seq<Chunk>)
    requires r.recorder == Some(Recording)
    ensures DeliverChunks(r, cs).chunks == r.chunks + cs
    ensures DeliverChunks(r, cs).recorder == r.recorder && DeliverChunks(r, cs).startTime == r.startTime
    ensures DeliverChunks(r, cs).delivered == r.delivered
    decreases |cs|
  {
    if cs == [] {
      assert r.chunks + cs == r.chunks;
    } else {
      var next := Step(r, DataAvailable(cs[0]));
      ChunksInArrivalOrder(next, cs[1..]);
      assert r.chunks + [cs[0]] + cs[1..] == r.chunks + cs;
    }
  }

  /**
    A whole session: start at `t0`, receive chunks, stop, and the recorder's
    notification at `t1` delivers those chunks as one clip lasting `t1 - t0`.
   */
  lemma SessionDeliversClip(r: Recorder, t0: int, cs: seq<Chunk>, t1: int)
    ensures var started := Step(r, Start(true, t0));
            var stopped := Step(DeliverChunks(started, cs), Stop);
            var done := Step(stopped, RecorderStopped(t1));
            && done.delivered == r.delivered + [Clip(cs, "audio/webm;codecs=opus", t1 - t0)]
            && !done.isRecording && !done.streamLive && !done.contextOpen
  {
    var started := Step(r, Start(true, t0));
    ChunksInArrivalOrder(started, cs);
    assert [] + cs == cs;
  }

  /** A refused microphone leaves the flag down and starts no amplitude interval. */
  lemma StartFailureArmsNothing(r: Recorder, now: int)
    requires !r.sampling
    ensures !Step(r, Start(false, now)).isRecording && !Step(r, Start(false, now)).sampling
  {
  }

  /**
    With no timer pending when sampling starts, the silence timer stops the
    recording at time `now` exactly when the trace ends in a quiet run whose
    first sample was taken at least 2200 ms before `now`.
   */
  lemma SilenceStopTiming(r: Recorder, trace: seq<(int, seq<Byte>)>, now: int)
    requires Inv(r) && r.sampling && r.silenceDeadline.None?
    ensures var n := QuietSuffix(trace);
            var after := Step(Samples(r, trace), SilenceElapsed(now));
            && (after.stopPending <==> n > 0 && trace[|trace| - n].0 + SilenceTimeoutMs <= now)
            && (n > 0 && trace[|trace| - n].0 + SilenceTimeoutMs <= now ==> after.recorder == Some(Inactive))
  {
    SilenceDeadlineFromFirstQuiet(r, trace);
    SamplesKeepSession(r, trace);
    SamplesKeepPending(r, trace);
  }

  /** Sampling never sets a stop pending. */
  lemma {:induction false} SamplesKeepPending(r: Recorder, trace: seq<(int, seq<Byte>)>)
    ensures Samples(r, trace).stopPending == r.stopPending
    decreases |trace|
  {
    if trace != [] {
      SamplesKeepPending(Step(r, Sample(trace[0].0, trace[0].1)), trace[1..]);
    }
  }
}
