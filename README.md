# TeslaPiCAN core, modelled in Dafny

TeslaPiCAN listens on a Tesla Model 3 vehicle CAN bus, decodes frames against
the car's DBC signal database and hands every received frame to a list of
subscribers. Concurrently it injects a synthetic "scroll wheel" event on the
left steering-wheel switch message (id 0x3c2) every 10 s ± 2 s.

This project models the three pieces of sequential logic in `main.py`:

- `signal_dict.dfy`, module `SignalDict`: `create_signal_dict`. The method
  `CreateSignalDict` is the source's loop. It is proved equal to the function
  `SignalValues`, whose contract characterises the result entry by entry:
  - one key per declared name;
  - defaults overwritten by the specified values;
  - the first multiplexer-flagged signal forced to the first selector id of
    the last specified signal that carries selector ids. This holds even when
    the caller gave the multiplexer its own value.
- `subscriber.dfy`, module `Subscribers`: class `CanBusSubscriber`. It is
  generic in the callback identity, which only needs `==`. Its
  `subscribers: seq<C>` field is kept duplicate-free by `Valid()`.
  `NotifySubscribers` returns the sequence of calls it makes.
- `volume_flick.dfy`, module `VolumeFlick`: the body of `flick_volume`. The
  class `VolumeFlicker` holds the shared signal map and a trace of `Sleep` and
  `Send` events. `Cycle` is one pass of the loop. `Run` is the first n passes,
  one per random draw.
- `wrappers.dfy`: the `Option` datatype.

Parameters stand in for the environment:
- the random draw of `random.randint(0, 4000)` is an argument;
- the DBC encoder is an uninterpreted function `map<string, int> -> seq<byte>`;
- the message descriptor is an argument, so no DBC lookup happens;
- sleeping and sending are recorded in the trace instead of being performed.
  Time is in integer milliseconds.

Some behaviours of main.py are easy to misread; the model follows the code:
- A signal proposes a selector whenever its `multiplexer_ids` is present
  (`is not None`). The model takes it to be non-empty (`WellFormed`), because
  the code reads element 0.
- `notify_subscribers` iterates the live `self.subscribers` list directly,
  with no snapshot (main.py:71). A callback that subscribes or unsubscribes
  while a dispatch is running changes the list being iterated.
- An encoding failure is not caught by `flick_volume`; it would end the task
  rather than skip a cycle. The model's encoder is total.

## Model

| member | source | states |
|---|---|---|
| `SignalDict.MultiplexerIndex` | main.py:86 | finds a multiplexer exactly when the message flags one, and the one it finds is the first flagged signal |
| `SignalDict.SelectorIndex` | main.py:89-93 | finds a selector exactly when some specified signal carries multiplexer ids, and the one it finds is the last such signal in declaration order |
| `SignalDict.SignalValues` | main.py:83-98 | key set is exactly the declared names, so undeclared specified names are ignored; with no multiplexer or no selector, each name holds its specified value or the default; otherwise the first multiplexer holds the last selector's first id and every other name holds its specified value or the default |
| `SignalDict.CreateSignalDict` | main.py:83-98 | the loop fills defaults, overwrites specified signals, records the last selector value and forces the multiplexer to it; its result equals `SignalValues` |
| `SignalDict.MultiplexerOverridesExplicitValue` | main.py:90-96 | an explicit value given for the multiplexer is discarded when a specified signal carries selector ids |
| `SignalDict.OnlyFirstMultiplexer` | main.py:86 | a later multiplexer-flagged signal with another name keeps its specified or default value |
| `SignalDict.SelectorScenario` | main.py:83-98 | for selector `sel` and member `val` with ids [5, 7], specifying only `val = -1` yields exactly `{sel: 5, val: -1}` |
| `Subscribers.RemoveFirst` | main.py:68 | the result is one element shorter when the callback is present and unchanged when it is absent; its multiset loses exactly one copy of the callback |
| `Subscribers.RemoveFirstAt` | main.py:68 | removal cuts exactly the first occurrence; the others keep their relative order |
| `Subscribers.RemoveFirstNoDuplicates` | main.py:66-68 | on a duplicate-free list the callback is gone afterwards and no duplicate appears |
| `Subscribers.Subscribed` | main.py:62-64 | a callback already in the list leaves it unchanged; otherwise the callback is present afterwards, the old list is a prefix of the new one, and the list grows by at most one; no duplicates are introduced |
| `Subscribers.CanBusSubscriber.constructor` | main.py:59-60 | the registry starts empty |
| `Subscribers.CanBusSubscriber.Subscribe` | main.py:62-64 | appends the callback when it is absent and leaves the list unchanged when present; afterwards it occurs exactly once and the list stays duplicate-free |
| `Subscribers.CanBusSubscriber.Unsubscribe` | main.py:66-68 | removes the callback when present, keeping the others in order; it is a no-op when the callback is absent; afterwards the callback is absent |
| `Subscribers.CanBusSubscriber.NotifySubscribers` | main.py:70-72 | calls every registered callback once, in list order, each with the same message |
| `Subscribers.SubscribeIdempotent` | main.py:62-64 | subscribing twice equals subscribing once |
| `Subscribers.SubscribeTwiceDispatchedOnce` | main.py:62-72 | a callback subscribed twice occurs once in the list, so it is dispatched once per frame |
| `Subscribers.UnsubscribeIdempotent` | main.py:66-68 | unsubscribing twice equals unsubscribing once |
| `Subscribers.UnsubscribeUndoesSubscribe` | main.py:62-68 | unsubscribing a callback that was just newly subscribed restores the previous list |
| `VolumeFlick.JitterMs` | main.py:105 | a draw from [0, 4000] gives a jitter within ±2000 ms |
| `VolumeFlick.IntervalMs` | main.py:105-106 | the sleep before a flick lies between 8000 and 12000 ms |
| `VolumeFlick.IntervalExactlyOneDraw` | main.py:105-106 | every interval from 8000 to 12000 ms comes from exactly one draw |
| `VolumeFlick.WithTicks` | main.py:112 | after setting the ticks, the map has its old keys plus the ticks key, the ticks value is the one set, and every other entry is unchanged |
| `VolumeFlick.CycleFrames` | main.py:112-121 | one cycle sends exactly two frames: ticks -1, then ticks +1 |
| `VolumeFlick.ScheduleFrames` | main.py:104-121 | n cycles send 2n frames, all on id 0x3c2 with a standard id; they alternate between the ticks -1 frame and the ticks +1 frame of the same map; the two maps encoded in a cycle have the same keys and differ only in the ticks entry |
| `VolumeFlick.VolumeFlicker.constructor` | main.py:102-103 | the shared map is `create_signal_dict` of the message with ticks specified as -1 and default 0 |
| `VolumeFlick.VolumeFlicker.Cycle` | main.py:105-121 | a cycle does four things in order: sleep the jittered interval, send the ticks -1 frame, pause 10 ms, send the ticks +1 frame; the map keeps ticks = +1 |
| `VolumeFlick.VolumeFlicker.Run` | main.py:104-121 | n passes of the loop add to the trace the schedule of their n intervals over the starting map; every cycle sends the same two frames |

## Left out

- Logging (`configure_logger` and the module-level loggers, main.py:29-55, and the log lines at main.py:107 and main.py:110): these only configure library handlers and format text.
- DBC encode/decode and message lookup (`volume_message.encode`, `dbc.decode_message`, `get_message_by_frame_id`): bit packing and failure classification happen inside the cantools library, which is not part of this model. The encoder is an uninterpreted parameter, so no encode/decode round trip is stated.
- Transport and scheduling (`bus.recv`, `read_can_messages` and its `asyncio.sleep`, main.py:75-80; the `asyncio.sleep` calls at main.py:108 and main.py:116 and the `bus.send` calls at main.py:115 and main.py:121 inside `flick_volume`): these are I/O and cooperative concurrency. The sends and sleeps of `flick_volume` appear only as trace events.
- `log_frames` and `print_signal` (main.py:124-147): their decoding and printing go through cantools and standard output. As bound at main.py:159, `functools.partial(print_signal, dbc, frame, signal)` puts the frame id into the `message` parameter. On the first received frame, `message.arbitration_id` at main.py:139 then raises AttributeError, which none of the `except` clauses handles.
- `main` (main.py:150-169): startup wiring and DBC file loading. Its `functools.partial` binding at main.py:159 is not modelled either.
- `VolumeFlicker.Run`: covers a finite number of passes of the `while True` loop, one per draw, not an unbounded run.
- `JitterMs`: uses exact integer milliseconds. The source computes `randint(...) / 1000 - 2` in floating point, and those rounding effects are not modelled.
- `VolumeFlicker.Cycle`: records each frame as a value when it is sent. The source sends the same `can.Message` object twice and changes its `data` in between. Aliasing of that object after the first send is not modelled.
- `CanBusSubscriber.NotifySubscribers`: assumes every callback returns normally and has no effect on the registry. In main.py:71-72 each callback is awaited with no `try`, so one that raises stops the dispatch: the later callbacks are not called, and the exception ends `read_can_messages` (main.py:79). Given the binding at main.py:159 that is what happens on the first frame, right after `log_frames`. A callback that subscribes or unsubscribes during dispatch is not modelled either.
- The `if multiplexer_signal` truth test is modelled as "a multiplexer signal exists". cantools signal objects are always truthy.
