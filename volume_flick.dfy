/**
 The volume-flick stimulus (flick_volume in main.py): forever, sleep a
 jittered interval, then send the left-switch status frame twice, first with
 the scroll-ticks signal at -1 and, after a short pause, at +1, so that the
 pair reads as one discrete scroll event.

 Time is kept in integer milliseconds. The random draw is a parameter and
 the DBC encoder is an uninterpreted function of the signal map. The bus and
 the sleeps are recorded as a trace of events instead of being performed.
 */
module VolumeFlick {
  import opened SignalDict

  /** Frame id of the left-switch status message (ID3C2VCLEFT_SWITCHSTATUS_ID). */
  const SwitchStatusId: nat := 0x3c2
  /** Base interval between flicks: 10.0 s. */
  const FlickIntervalMs: int := 10000
  /** Jitter magnitude, in seconds: 2. */
  const FlickJitter: int := 2
  /** Pause between the two frames of one flick: 0.01 s. */
  const ReleaseDelayMs: nat := 10
  /** The signal that carries the scroll tick. */
  const ScrollTicks: string := "VCLEFT_swcLeftScrollTicks"

  newtype byte = x: int | 0 <= x < 256

  /** A CAN frame as handed to the bus. */
  datatype Frame = Frame(arbitrationId: nat, data: seq<byte>, isExtendedId: bool)

  /** What the task does, in order: sleep for a while, or put a frame on the bus. */
  datatype Event = Sleep(ms: nat) | Send(frame: Frame)

  /** The DBC encoder of the switch status message, left uninterpreted. */
  type Encoder = map<string, int> -> seq<byte>

  /** The jitter in ms for a draw from `randint(0, 2000 * J)`: draw / 1000 seconds minus J seconds. */
  function JitterMs(draw: int): (j: int)
    requires 0 <= draw <= 2000 * FlickJitter
    ensures -1000 * FlickJitter <= j <= 1000 * FlickJitter
  {
    draw - 1000 * FlickJitter
  }

  /** The sleep before a flick, in ms: the base interval plus the jitter. */
  function IntervalMs(draw: int): (ms: nat)
    requires 0 <= draw <= 2000 * FlickJitter
    ensures FlickIntervalMs - 1000 * FlickJitter <= ms <= FlickIntervalMs + 1000 * FlickJitter
  {
    FlickIntervalMs + JitterMs(draw)
  }

  /** Every interval between 8 s and 12 s comes from exactly one draw. */
  lemma IntervalExactlyOneDraw(ms: int)
    requires FlickIntervalMs - 1000 * FlickJitter <= ms <= FlickIntervalMs + 1000 * FlickJitter
    ensures exists draw :: 0 <= draw <= 2000 * FlickJitter && IntervalMs(draw) == ms
    ensures forall d1, d2 ::
              && 0 <= d1 <= 2000 * FlickJitter && 0 <= d2 <= 2000 * FlickJitter
              && IntervalMs(d1) == ms && IntervalMs(d2) == ms
              ==> d1 == d2
  {
    assert IntervalMs(ms - 8000) == ms;
  }

  /** The shared signal map with the scroll ticks set to `ticks`; nothing else changes. */
  function WithTicks(signals: map<string, int>, ticks: int): (r: map<string, int>)
    ensures r.Keys == signals.Keys + {ScrollTicks}
    ensures r[ScrollTicks] == ticks
    ensures forall n :: n in signals && n != ScrollTicks ==> r[n] == signals[n]
  {
    signals[ScrollTicks := ticks]
  }

  /** The first frame of a flick: ticks = -1. */
  function AssertFrame(encode: Encoder, signals: map<string, int>): Frame
  {
    Frame(SwitchStatusId, encode(WithTicks(signals, -1)), false)
  }

  /** The second frame of a flick: ticks = +1. */
  function ReleaseFrame(encode: Encoder, signals: map<string, int>): Frame
  {
    Frame(SwitchStatusId, encode(WithTicks(signals, 1)), false)
  }

  /** One cycle of the loop: sleep, send the assert frame, pause, send the release frame. */
  function CycleEvents(encode: Encoder, signals: map<string, int>, intervalMs: nat): seq<Event>
  {
    [Sleep(intervalMs), Send(AssertFrame(encode, signals)), Sleep(ReleaseDelayMs), Send(ReleaseFrame(encode, signals))]
  }

  /** The cycles for a sequence of intervals, one after another. */
  function Schedule(encode: Encoder, signals: map<string, int>, intervals: seq<nat>): seq<Event>
  {
    if intervals == [] then []
    else Schedule(encode, signals, intervals[..|intervals| - 1]) +
         CycleEvents(encode, signals, intervals[|intervals| - 1])
  }

  /** The frames of a trace, in the order they were sent. */
  function Frames(trace: seq<Event>): seq<Frame>
  {
    if trace == [] then []
    else Frames(trace[..|trace| - 1]) +
         (if trace[|trace| - 1].Send? then [trace[|trace| - 1].frame] else [])
  }

  lemma {:induction false} FramesAppend(a: seq<Event>, b: seq<Event>)
    ensures Frames(a + b) == Frames(a) + Frames(b)
  {
    if b == [] {
      assert a + b == a;
    } else {
      var b' := b[..|b| - 1];
      assert (a + b)[..|a + b| - 1] == a + b';
      assert (a + b)[|a + b| - 1] == b[|b| - 1];
      FramesAppend(a, b');
    }
  }

  /** Each cycle puts exactly two frames on the bus, the assert frame then the release frame. */
  lemma CycleFrames(encode: Encoder, signals: map<string, int>, intervalMs: nat)
    ensures Frames(CycleEvents(encode, signals, intervalMs)) ==
              [AssertFrame(encode, signals), ReleaseFrame(encode, signals)]
  {
    var es := CycleEvents(encode, signals, intervalMs);
    var a, b, c, d := [es[0]], [es[1]], [es[2]], [es[3]];
    assert es == a + b + c + d;
    assert a[..0] == b[..0] == c[..0] == d[..0] == [];
    FramesAppend(a, b);
    FramesAppend(a + b, c);
    FramesAppend(a + b + c, d);
  }

  /** Over n cycles the bus sees 2 * n frames on id 0x3c2 with standard ids, alternating
      ticks -1 and +1, and the two frames of a cycle encode maps that differ only in the ticks. */
  lemma {:induction false} ScheduleFrames(encode: Encoder, signals: map<string, int>, intervals: seq<nat>)
    ensures |Frames(Schedule(encode, signals, intervals))| == 2 * |intervals|
    ensures forall i :: 0 <= i < |intervals| ==>
              && Frames(Schedule(encode, signals, intervals))[2 * i] == AssertFrame(encode, signals)
              && Frames(Schedule(encode, signals, intervals))[2 * i + 1] == ReleaseFrame(encode, signals)
    ensures forall f :: f in Frames(Schedule(encode, signals, intervals)) ==>
              f.arbitrationId == SwitchStatusId && !f.isExtendedId
    ensures WithTicks(signals, -1).Keys == WithTicks(signals, 1).Keys
    ensures forall n :: n in signals && n != ScrollTicks ==> WithTicks(signals, -1)[n] == WithTicks(signals, 1)[n]
  {
    if intervals != [] {
      var init := intervals[..|intervals| - 1];
      var last := intervals[|intervals| - 1];
      ScheduleFrames(encode, signals, init);
      FramesAppend(Schedule(encode, signals, init), CycleEvents(encode, signals, last));
      CycleFrames(encode, signals, last);
    }
  }

  /** The state of the flick_volume task. */
  class VolumeFlicker {
    /** The switch status message descriptor. */
    const message: Message
    /** Its DBC encoder. */
    const encode: Encoder
    /** The signal map shared by all cycles. */
    var signals: map<string, int>
    /** What the task has done so far. */
    var trace: seq<Event>

    /** Builds the shared map from the message with the scroll ticks specified as -1
        and every other signal defaulted to 0. */
    constructor (msg: Message, encoder: Encoder)
      requires WellFormed(msg)
      ensures message == msg && encode == encoder && trace == []
      ensures signals == SignalValues(msg, map[ScrollTicks := -1], 0)
    {
      var initial := CreateSignalDict(msg, map[ScrollTicks := -1], 0);
      message := msg;
      encode := encoder;
      signals := initial;
      trace := [];
    }

    /** One pass of the loop body, with `draw` standing for the random draw. */
    method Cycle(draw: int) returns (intervalMs: nat)
      requires 0 <= draw <= 2000 * FlickJitter
      modifies this
      ensures intervalMs == IntervalMs(draw)
      ensures signals == WithTicks(old(signals), 1)
      ensures trace == old(trace) + CycleEvents(encode, old(signals), intervalMs)
    {
      intervalMs := IntervalMs(draw);
      trace := trace + [Sleep(intervalMs)];

      signals := signals[ScrollTicks := -1];
      var frame := Frame(SwitchStatusId, encode(signals), false);
      trace := trace + [Send(frame)];
      trace := trace + [Sleep(ReleaseDelayMs)];

      signals := signals[ScrollTicks := 1];
      frame := frame.(data := encode(signals));
      trace := trace + [Send(frame)];
    }

    /** The first |draws| passes of the unbounded loop. Whatever the map held at the start,
        every cycle sends the same assert and release frames. */
    method Run(draws: seq<int>) returns (intervals: seq<nat>)
      requires forall i :: 0 <= i < |draws| ==> 0 <= draws[i] <= 2000 * FlickJitter
      modifies this
      ensures |intervals| == |draws|
      ensures forall i :: 0 <= i < |draws| ==> intervals[i] == IntervalMs(draws[i])
      ensures signals == if draws == [] then old(signals) else WithTicks(old(signals), 1)
      ensures trace == old(trace) + Schedule(encode, old(signals), intervals)
    {
      intervals := [];
      ghost var start := signals;
      for i := 0 to |draws|
        invariant |intervals| == i
        invariant forall j :: 0 <= j < i ==> intervals[j] == IntervalMs(draws[j])
        invariant signals == if i == 0 then start else WithTicks(start, 1)
        invariant trace == old(trace) + Schedule(encode, start, intervals)
      {
        assert WithTicks(signals, -1) == WithTicks(start, -1);
        assert WithTicks(signals, 1) == WithTicks(start, 1);
        var ms := Cycle(draws[i]);
        assert (intervals + [ms])[..i] == intervals;
        intervals := intervals + [ms];
      }
    }
  }
}
