/** The playback thread of the video renderer: audio units drive a
    millisecond clock, and a decoded video frame is released once the clock
    has reached its timestamp.

    The decoder threads, the mixer hand-off and wall time are not modelled:
    the two decoded queues are sequences (the ring queue of `RingQueue`, seen
    through its contents, oldest first), wall time `now` is a parameter of each
    iteration, and the float product `speed * frameInterval` is a parameter
    `step`. Timestamps are milliseconds, unbounded here (the source's
    `qint64` does not overflow for real media). */
module Playback {
  import CInt

  datatype Option<T> = None | Some(value: T)

  /** A decoded unit with its presentation timestamp in milliseconds. */
  datatype Timed<P> = Timed(ts: int, payload: P)

  /** The four clock fields. 0 in `lastTimestamp` and `currentTimestamp`
      doubles as "not set yet". `frameInterval` is an `int`. */
  datatype Clock = Clock(lastTimestamp: int, currentTimestamp: int, lastPlayTimestamp: int, frameInterval: int)

  /** Renderer state: the playing flag, the recorded file path, the clock and
      the two decoded queues. `pathOpened` stands for the decoders' state:
      it holds when both decoders have the file `path` open. */
  datatype Renderer<V, A> = Renderer(
    playing: bool,
    path: string,
    pathOpened: bool,
    clock: Clock,
    video: seq<Timed<V>>,
    audio: seq<Timed<A>>)

  const ZeroClock: Clock := Clock(0, 0, 0, 0)

  /** A freshly constructed renderer. */
  function NewRenderer<V, A>(): (s: Renderer<V, A>)
    ensures !s.playing && s.path == [] && !s.pathOpened
    ensures s.clock == Clock(0, 0, 0, 0) && s.video == [] && s.audio == []
  {
    Renderer(false, [], false, ZeroClock, [], [])
  }

  // ---------------------------------------------------------------------
  // One iteration of the playback loop
  // ---------------------------------------------------------------------

  /** What one iteration did: the state afterwards, the frame it released
      (at most one), the audio payload it forwarded to the mixer (at most
      one), and whether the loop stopped because playing was off. */
  datatype Iteration<V, A> = Iteration(state: Renderer<V, A>, frame: Option<V>, sent: Option<A>, stopped: bool)

  /** The iteration is throttled: less than one frame interval of wall time
      has passed since the last audio unit was consumed. */
  predicate Throttled(c: Clock, now: int)
  {
    now - c.lastPlayTimestamp < c.frameInterval
  }

  /** The interval rule: a unit sets the interval to its distance from the
      previous unit, when that distance is not negative and a previous unit
      is recorded (`lastTimestamp != 0`); the `int` field takes the 64-bit
      difference narrowed to 32 bits. */
  function NextInterval(c: Clock, ts: int): (i: int)
    ensures ts - c.lastTimestamp >= 0 && c.lastTimestamp != 0 && ts - c.lastTimestamp < 0x8000_0000 ==>
      i == ts - c.lastTimestamp
    ensures !(ts - c.lastTimestamp >= 0 && c.lastTimestamp != 0) ==> i == c.frameInterval
  {
    if ts - c.lastTimestamp >= 0 && c.lastTimestamp != 0 then CInt.Wrap32(ts - c.lastTimestamp) else c.frameInterval
  }

  /** The clock after consuming an audio unit at wall time `now`. */
  function Advance(c: Clock, ts: int, now: int, step: int -> int): (c': Clock)
    ensures c'.frameInterval == NextInterval(c, ts)
    ensures c.currentTimestamp == 0 ==> c'.currentTimestamp == ts
    ensures c.currentTimestamp != 0 ==> c'.currentTimestamp == c.currentTimestamp + step(c'.frameInterval)
    ensures c'.lastTimestamp == ts && c'.lastPlayTimestamp == now
  {
    var interval := NextInterval(c, ts);
    var current := if c.currentTimestamp == 0 then ts else c.currentTimestamp + step(interval);
    Clock(ts, current, now, interval)
  }

  /** One pass of the `run` loop. */
  function Step<V, A>(s: Renderer<V, A>, now: int, step: int -> int): (it: Iteration<V, A>)
    ensures it.stopped <==> !s.playing
    ensures !s.playing ==> it.state == s && it.frame.None? && it.sent.None?
    ensures it.state.playing == s.playing && it.state.path == s.path && it.state.pathOpened == s.pathOpened
    // release: only the head, only once the clock has reached it
    ensures it.frame.Some? <==> s.playing && |s.video| > 0 && s.video[0].ts <= s.clock.currentTimestamp
    ensures it.frame.Some? ==> it.frame.value == s.video[0].payload && it.state.video == s.video[1..]
    ensures it.frame.None? ==> it.state.video == s.video
    // throttle: nothing consumed, no clock field changes
    ensures s.playing && Throttled(s.clock, now) ==> it.sent.None? && it.state.clock == s.clock && it.state.audio == s.audio
    // consume: the oldest audio unit drives the clock
    ensures it.sent.Some? <==> s.playing && !Throttled(s.clock, now) && |s.audio| > 0
    ensures it.sent.Some? ==>
      && it.sent.value == s.audio[0].payload
      && it.state.audio == s.audio[1..]
      && it.state.clock == Advance(s.clock, s.audio[0].ts, now, step)
    ensures it.sent.None? ==> it.state.audio == s.audio && it.state.clock == s.clock
  {
    if !s.playing then Iteration(s, None, None, true)
    else
      var release := |s.video| > 0 && s.video[0].ts <= s.clock.currentTimestamp;
      var frame := if release then Some(s.video[0].payload) else None;
      var s1 := if release then s.(video := s.video[1..]) else s;
      if Throttled(s.clock, now) || |s.audio| == 0 then Iteration(s1, frame, None, false)
      else
        var u := s.audio[0];
        Iteration(s1.(audio := s.audio[1..], clock := Advance(s.clock, u.ts, now, step)), frame, Some(u.payload), false)
  }

  /** Several iterations at the given wall times. Returns the final state,
      the released frames and the forwarded audio payloads, in order. */
  function Play<V, A>(s: Renderer<V, A>, nows: seq<int>, step: int -> int): (res: (Renderer<V, A>, seq<V>, seq<A>))
    decreases |nows|
  {
    if |nows| == 0 then (s, [], [])
    else
      var it := Step(s, nows[0], step);
      var (s', frames, sent) := Play(it.state, nows[1..], step);
      (s', (if it.frame.Some? then [it.frame.value] else []) + frames,
           (if it.sent.Some? then [it.sent.value] else []) + sent)
  }

  function Payloads<P>(us: seq<Timed<P>>): (ps: seq<P>)
    ensures |ps| == |us|
    ensures forall k :: 0 <= k < |us| ==> ps[k] == us[k].payload
  {
    seq(|us|, k requires 0 <= k < |us| => us[k].payload)
  }

  /** `out` is what left the queue `xs`, in order, and `rest` is what is
      still in it. */
  ghost predicate Emitted<P>(xs: seq<Timed<P>>, out: seq<P>, rest: seq<Timed<P>>)
  {
    |out| <= |xs| && rest == xs[|out|..] && out == Payloads(xs[..|out|])
  }

  lemma EmittedNone<P>(xs: seq<Timed<P>>)
    ensures Emitted(xs, [], xs)
  {
  }

  lemma EmittedCons<P>(xs: seq<Timed<P>>, out: seq<P>, rest: seq<Timed<P>>)
    requires |xs| > 0 && Emitted(xs[1..], out, rest)
    ensures Emitted(xs, [xs[0].payload] + out, rest)
  {
    assert xs[..|out| + 1] == [xs[0]] + xs[1..][..|out|];
  }

  /** Frames are released, and audio forwarded, in queue order with none lost
      or repeated: what left each queue is a prefix of it, and it went out in
      that order. */
  lemma {:induction false} PlayKeepsOrder<V, A>(s: Renderer<V, A>, nows: seq<int>, step: int -> int)
    ensures var res := Play(s, nows, step);
      Emitted(s.video, res.1, res.0.video) && Emitted(s.audio, res.2, res.0.audio)
    decreases |nows|
  {
    if |nows| == 0 {
      EmittedNone(s.video);
      EmittedNone(s.audio);
    } else {
      var it := Step(s, nows[0], step);
      PlayKeepsOrder(it.state, nows[1..], step);
      var res := Play(it.state, nows[1..], step);
      if it.frame.Some? {
        EmittedCons(s.video, res.1, res.0.video);
      }
      if it.sent.Some? {
        EmittedCons(s.audio, res.2, res.0.audio);
      }
    }
  }

  // ---------------------------------------------------------------------
  // Speed
  // ---------------------------------------------------------------------

  /** `(int)(speed * interval)` computed exactly: the product truncated toward
      zero. */
  function ExactStep(speed: real): (step: int -> int)
  {
    i => CInt.TruncReal(speed * i as real)
  }

  /** At speed 1.0 the clock advances by exactly one frame interval. */
  lemma SpeedOneStep(i: int)
    ensures ExactStep(1.0)(i) == i
  {
  }

  /** At speed 1.0, a consumed unit moves a running clock on by the interval
      just recorded. */
  lemma SpeedOneAdvance(c: Clock, ts: int, now: int)
    requires c.currentTimestamp != 0
    ensures var c' := Advance(c, ts, now, ExactStep(1.0));
      c'.currentTimestamp == c.currentTimestamp + c'.frameInterval
  {
    SpeedOneStep(NextInterval(c, ts));
  }

  /** From a zeroed clock, audio units stamped 0, 40 and 80 consumed one per
      iteration: the 0 stamp leaves both "unset" markers at 0, so the second
      unit re-seeds the clock and still sets no interval; only the third
      sets the interval (40). At speed 1.0 the clock then reads 80, and the
      next iteration one millisecond later is throttled. */
  lemma IntervalOnThirdUnit<V, A>(s: Renderer<V, A>, a0: A, a1: A, a2: A)
    requires s.playing && s.clock == ZeroClock && s.video == []
    requires s.audio == [Timed(0, a0), Timed(40, a1), Timed(80, a2)]
    ensures var it1 := Step(s, 1000, ExactStep(1.0));
      var it2 := Step(it1.state, 1001, ExactStep(1.0));
      var it3 := Step(it2.state, 1002, ExactStep(1.0));
      var it4 := Step(it3.state, 1003, ExactStep(1.0));
      && it1.state.clock == Clock(0, 0, 1000, 0)
      && it2.state.clock == Clock(40, 40, 1001, 0)
      && it3.state.clock == Clock(80, 80, 1002, 40)
      && it4.sent.None? && it4.state.clock == it3.state.clock
  {
    var it1 := Step(s, 1000, ExactStep(1.0));
    var it2 := Step(it1.state, 1001, ExactStep(1.0));
    SpeedOneStep(40);
    assert it2.state.audio == [Timed(80, a2)];
  }

  // ---------------------------------------------------------------------
  // Seek, close, open, duration
  // ---------------------------------------------------------------------

  /** `seekTo`: playing stops and the clock's three timestamps return to
      "unset"; the interval is kept. Each decoder clears its queue when its
      own seek succeeds (`videoSeeked`, `audioSeeked`). */
  function SeekTo<V, A>(s: Renderer<V, A>, videoSeeked: bool, audioSeeked: bool): (s': Renderer<V, A>)
    ensures !s'.playing && s'.path == s.path && s'.pathOpened == s.pathOpened
    ensures s'.clock == Clock(0, 0, 0, s.clock.frameInterval)
    ensures s'.video == (if videoSeeked then [] else s.video)
    ensures s'.audio == (if audioSeeked then [] else s.audio)
  {
    s.(playing := false,
       clock := s.clock.(lastTimestamp := 0, lastPlayTimestamp := 0, currentTimestamp := 0),
       video := if videoSeeked then [] else s.video,
       audio := if audioSeeked then [] else s.audio)
  }

  /** Seeking twice in a row is the same as seeking once. */
  lemma SeekIdempotent<V, A>(s: Renderer<V, A>, videoSeeked: bool, audioSeeked: bool)
    ensures SeekTo(SeekTo(s, videoSeeked, audioSeeked), videoSeeked, audioSeeked) == SeekTo(s, videoSeeked, audioSeeked)
  {
  }

  /** After a seek the loop does nothing until playing is switched on again. */
  lemma SeekStopsLoop<V, A>(s: Renderer<V, A>, videoSeeked: bool, audioSeeked: bool, now: int, step: int -> int)
    ensures var s' := SeekTo(s, videoSeeked, audioSeeked);
      Step(s', now, step).stopped && Step(s', now, step).state == s'
  {
  }

  /** `closeVideo`: playing stops, the path is forgotten, all four clock
      fields return to 0 and both queues are emptied. */
  function CloseVideo<V, A>(s: Renderer<V, A>): (s': Renderer<V, A>)
    ensures !s'.playing && s'.path == [] && s'.clock == Clock(0, 0, 0, 0)
    ensures s'.video == [] && s'.audio == []
  {
    Renderer(false, [], false, ZeroClock, [], [])
  }

  /** Closing brings any renderer back to the freshly constructed state. */
  lemma CloseIsFresh<V, A>(s: Renderer<V, A>)
    ensures CloseVideo(s) == NewRenderer<V, A>()
  {
  }

  /** `openVideo` as the source writes it: the same path as the recorded one
      answers true at once; otherwise the path is recorded first and then the
      video and the audio decoder are opened (`videoOpened`, `audioOpened`:
      whether each open succeeds; the audio open is only tried after the
      video one succeeded). */
  function OpenVideoAsWritten<V, A>(s: Renderer<V, A>, path: string, videoOpened: bool, audioOpened: bool): (res: (Renderer<V, A>, bool))
    ensures path == s.path ==> res == (s, true)
    ensures path != s.path ==> res.0.path == path && res.1 == (videoOpened && audioOpened)
    ensures path != s.path ==> res.0.pathOpened == (videoOpened && audioOpened)
    ensures res.0.clock == s.clock && res.0.video == s.video && res.0.audio == s.audio && res.0.playing == s.playing
  {
    if path == s.path then (s, true)
    else
      var s' := s.(path := path, pathOpened := videoOpened && audioOpened);
      (s', videoOpened && audioOpened)
  }

  /** Because the path is recorded before the opens, a retry after a failed
      open answers true although no decoder holds the file. */
  lemma OpenRetryAfterFailure<V, A>(s: Renderer<V, A>, path: string)
    requires path != s.path
    ensures var r1 := OpenVideoAsWritten(s, path, false, false);
      var r2 := OpenVideoAsWritten(r1.0, path, true, true);
      && !r1.1 && r2.1 && !r2.0.pathOpened
  {
  }

  /** `openVideo` with the path recorded only once both decoders opened it;
      the shortcut for the current path applies only while that file is
      open. */
  function OpenVideo<V, A>(s: Renderer<V, A>, path: string, videoOpened: bool, audioOpened: bool): (res: (Renderer<V, A>, bool))
    ensures res.1 ==> res.0.pathOpened && res.0.path == path
    ensures !res.1 ==> !res.0.pathOpened
    ensures path == s.path && s.pathOpened ==> res == (s, true)
    ensures !(path == s.path && s.pathOpened) ==> res.1 == (videoOpened && audioOpened)
    ensures res.0.clock == s.clock && res.0.video == s.video && res.0.audio == s.audio && res.0.playing == s.playing
  {
    if path == s.path && s.pathOpened then (s, true)
    else if videoOpened && audioOpened then (s.(path := path, pathOpened := true), true)
    else (s.(path := [], pathOpened := false), false)
  }

  /** With the corrected guard, a retry after a failed open opens again and
      reports that open's outcome. */
  lemma OpenRetryReopens<V, A>(s: Renderer<V, A>, path: string, videoOpened: bool, audioOpened: bool)
    requires !(path == s.path && s.pathOpened)
    ensures var r1 := OpenVideo(s, path, false, false);
      var r2 := OpenVideo(r1.0, path, videoOpened, audioOpened);
      && !r1.1 && r2.1 == (videoOpened && audioOpened) && (r2.1 ==> r2.0.pathOpened)
  {
  }

  /** `getDuration`: the clock in whole seconds, divided toward zero and
      returned as an `int`. */
  function Duration(c: Clock): (secs: int)
    ensures -0x8000_0000 <= secs < 0x8000_0000
    ensures 0 <= c.currentTimestamp < 0x8000_0000 * 1000 ==>
      0 <= secs && secs * 1000 <= c.currentTimestamp < secs * 1000 + 1000
  {
    CInt.Wrap32(CInt.TruncDiv(c.currentTimestamp, 1000))
  }

  /** After a seek or a close, the reported position is 0 seconds. */
  lemma DurationAfterReset<V, A>(s: Renderer<V, A>, videoSeeked: bool, audioSeeked: bool)
    ensures Duration(SeekTo(s, videoSeeked, audioSeeked).clock) == 0
    ensures Duration(CloseVideo(s).clock) == 0
  {
  }
}
