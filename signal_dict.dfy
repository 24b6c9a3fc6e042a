/**
 Building the complete signal-name -> value map that is handed to the DBC
 encoder for one message (create_signal_dict in main.py).

 Every declared signal starts at a default value, the caller's specified
 values overwrite it, and finally the message's multiplexer signal is forced
 to the selector value taken from the LAST specified signal (in declaration
 order) that belongs to a multiplexed group. That selector wins even over an
 explicit value the caller gave for the multiplexer itself.
 */
module SignalDict {
  import opened Wrappers

  /** One signal descriptor of a message, as far as the map construction looks at it. */
  datatype Signal = Signal(name: string, isMultiplexer: bool, muxIds: Option<seq<int>>)

  /** A message descriptor: its signals in declaration order. */
  type Message = seq<Signal>

  /** The DBC layer gives a multiplexed signal a non-empty list of selector values;
      the source relies on it when it reads the first one. */
  predicate WellFormed(msg: Message)
  {
    forall i :: 0 <= i < |msg| && msg[i].muxIds.Some? ==> |msg[i].muxIds.value| > 0
  }

  /** The names the message declares. */
  function Names(msg: Message): set<string>
  {
    set i | 0 <= i < |msg| :: msg[i].name
  }

  /** A signal the caller specified that belongs to a multiplexed group:
      it proposes the first of its selector values. */
  predicate Selects(s: Signal, specified: map<string, int>)
  {
    s.name in specified && s.muxIds.Some?
  }

  /** Index m is the first signal flagged as multiplexer. */
  predicate IsFirstMultiplexer(msg: Message, m: int)
  {
    0 <= m < |msg| && msg[m].isMultiplexer &&
    forall j :: 0 <= j < m ==> !msg[j].isMultiplexer
  }

  /** Index k is the last signal, in declaration order, that proposes a selector. */
  predicate IsLastSelector(msg: Message, specified: map<string, int>, k: int)
  {
    0 <= k < |msg| && Selects(msg[k], specified) &&
    forall j :: k < j < |msg| ==> !Selects(msg[j], specified)
  }

  predicate HasMultiplexer(msg: Message)
  {
    exists i :: 0 <= i < |msg| && msg[i].isMultiplexer
  }

  predicate HasSelector(msg: Message, specified: map<string, int>)
  {
    exists i :: 0 <= i < |msg| && Selects(msg[i], specified)
  }

  /** The value a declared name gets before the multiplexer is resolved. */
  function Plain(specified: map<string, int>, default: int, n: string): int
  {
    if n in specified then specified[n] else default
  }

  /** The multiplexer the source picks with `next(...)`: the first flagged signal, if any. */
  function MultiplexerIndex(msg: Message): (r: Option<nat>)
    ensures r.None? <==> !HasMultiplexer(msg)
    ensures r.Some? ==> IsFirstMultiplexer(msg, r.value)
  {
    if msg == [] then None
    else if msg[0].isMultiplexer then Some(0)
    else
      var rest := MultiplexerIndex(msg[1..]);
      if rest.None? then None else Some(rest.value + 1)
  }

  /** The signal whose selector value survives the loop: the last one that proposes one. */
  function SelectorIndex(msg: Message, specified: map<string, int>): (r: Option<nat>)
    ensures r.None? <==> !HasSelector(msg, specified)
    ensures r.Some? ==> IsLastSelector(msg, specified, r.value)
  {
    if msg == [] then None
    else if Selects(msg[|msg| - 1], specified) then Some(|msg| - 1)
    else
      var r := SelectorIndex(msg[..|msg| - 1], specified);
      assert forall j :: 0 <= j < |msg| - 1 ==> msg[..|msg| - 1][j] == msg[j];
      r
  }

  /** The selector value recorded by the loop over the signals, if any. */
  function SelectorValue(msg: Message, specified: map<string, int>): Option<int>
    requires WellFormed(msg)
  {
    match SelectorIndex(msg, specified)
    case None => None
    case Some(k) => Some(msg[k].muxIds.value[0])
  }

  /** The map create_signal_dict returns, characterised entry by entry. */
  function SignalValues(msg: Message, specified: map<string, int>, default: int): (r: map<string, int>)
    requires WellFormed(msg)
    // exactly one entry per declared name: undeclared specified names are ignored
    ensures r.Keys == Names(msg)
    // without a multiplexer, or without a specified signal carrying selector ids,
    // the defaults are merely overwritten by the specified values
    ensures !HasMultiplexer(msg) || !HasSelector(msg, specified) ==>
              forall n :: n in r ==> r[n] == Plain(specified, default, n)
    // otherwise the first multiplexer takes the first id of the last selecting signal,
    // whatever was specified for it, and every other name is as above
    ensures forall m, k :: IsFirstMultiplexer(msg, m) && IsLastSelector(msg, specified, k) ==>
              && r[msg[m].name] == msg[k].muxIds.value[0]
              && forall n :: n in r && n != msg[m].name ==> r[n] == Plain(specified, default, n)
  {
    var plain := map n | n in Names(msg) :: Plain(specified, default, n);
    var mux, sel := MultiplexerIndex(msg), SelectorIndex(msg, specified);
    if mux.Some? && sel.Some? then
      var name := msg[mux.value].name;
      assert name in Names(msg);
      var r := plain[name := msg[sel.value].muxIds.value[0]];
      assert forall m, k :: IsFirstMultiplexer(msg, m) && IsLastSelector(msg, specified, k) ==>
               m == mux.value && k == sel.value by {
        forall m, k | IsFirstMultiplexer(msg, m) && IsLastSelector(msg, specified, k)
          ensures m == mux.value && k == sel.value
        {
          FirstMultiplexerUnique(msg, m, mux.value);
          LastSelectorUnique(msg, specified, k, sel.value);
        }
      }
      r
    else
      assert forall m :: !IsFirstMultiplexer(msg, m) || HasMultiplexer(msg);
      assert forall k :: !IsLastSelector(msg, specified, k) || HasSelector(msg, specified);
      plain
  }

  lemma FirstMultiplexerUnique(msg: Message, m1: int, m2: int)
    requires IsFirstMultiplexer(msg, m1) && IsFirstMultiplexer(msg, m2)
    ensures m1 == m2
  {
  }

  lemma LastSelectorUnique(msg: Message, specified: map<string, int>, k1: int, k2: int)
    requires IsLastSelector(msg, specified, k1) && IsLastSelector(msg, specified, k2)
    ensures k1 == k2
  {
  }

  /** Names(msg[..i + 1]) grows by exactly the i-th name. */
  lemma NamesPrefix(msg: Message, i: nat)
    requires i < |msg|
    ensures Names(msg[..i + 1]) == Names(msg[..i]) + {msg[i].name}
  {
    var p, q := msg[..i], msg[..i + 1];
    forall n | n in Names(q) ensures n in Names(p) + {msg[i].name} {
      var j :| 0 <= j < |q| && q[j].name == n;
      if j < i { assert p[j] == q[j]; }
    }
    forall n | n in Names(p) + {msg[i].name} ensures n in Names(q) {
      if n == msg[i].name {
        assert q[i].name == n;
      } else {
        var j :| 0 <= j < |p| && p[j].name == n;
        assert q[j] == p[j];
      }
    }
  }

  /** The selector recorded after i + 1 signals, in terms of the one after i. */
  lemma SelectorValuePrefix(msg: Message, specified: map<string, int>, i: nat)
    requires WellFormed(msg) && i < |msg|
    ensures WellFormed(msg[..i]) && WellFormed(msg[..i + 1])
    ensures SelectorValue(msg[..i + 1], specified) ==
              if Selects(msg[i], specified) then Some(msg[i].muxIds.value[0])
              else SelectorValue(msg[..i], specified)
  {
    assert msg[..i + 1][..i] == msg[..i];
    assert msg[..i + 1][i] == msg[i];
  }

  /** create_signal_dict: fill defaults, overwrite the specified declared signals while
      remembering the last selector value, then force the multiplexer to it. */
  method CreateSignalDict(msg: Message, specified: map<string, int>, default: int)
    returns (signals: map<string, int>)
    requires WellFormed(msg)
    ensures signals == SignalValues(msg, specified, default)
  {
    signals := map n | n in Names(msg) :: default;
    var multiplexer := MultiplexerIndex(msg);
    var multiplexerValue: Option<int> := None;
    assert msg[..0] == [];
    for i := 0 to |msg|
      invariant signals.Keys == Names(msg)
      invariant forall n :: n in signals ==>
                  signals[n] == if n in Names(msg[..i]) then Plain(specified, default, n) else default
      invariant WellFormed(msg[..i]) && multiplexerValue == SelectorValue(msg[..i], specified)
    {
      NamesPrefix(msg, i);
      SelectorValuePrefix(msg, specified, i);
      var signal := msg[i];
      assert signal.name in Names(msg);
      if signal.name in specified {
        signals := signals[signal.name := specified[signal.name]];
        if signal.muxIds.Some? {
          multiplexerValue := Some(signal.muxIds.value[0]);
        }
      }
    }
    assert msg[..|msg|] == msg;
    ghost var plain := map n | n in Names(msg) :: Plain(specified, default, n);
    assert signals == plain;
    if multiplexer.Some? && multiplexerValue.Some? {
      signals := signals[msg[multiplexer.value].name := multiplexerValue.value];
    }
  }

  /** The multiplexer's value is the first selector id of the last specified signal that
      carries ids, even when exactly one signal carries them and the caller gave the
      multiplexer an explicit, different value. */
  lemma MultiplexerOverridesExplicitValue(msg: Message, specified: map<string, int>, default: int, m: nat, k: nat)
    requires WellFormed(msg)
    requires IsFirstMultiplexer(msg, m) && IsLastSelector(msg, specified, k)
    requires msg[m].name in specified && specified[msg[m].name] != msg[k].muxIds.value[0]
    ensures SignalValues(msg, specified, default)[msg[m].name] != specified[msg[m].name]
  {
  }

  /** Only the first multiplexer-flagged signal is ever treated as the multiplexer:
      a later flagged signal with a different name keeps its ordinary value. */
  lemma OnlyFirstMultiplexer(msg: Message, specified: map<string, int>, default: int, m: nat, i: nat)
    requires WellFormed(msg)
    requires IsFirstMultiplexer(msg, m) && m < i < |msg| && msg[i].isMultiplexer
    requires msg[i].name != msg[m].name
    ensures msg[i].name in SignalValues(msg, specified, default)
    ensures SignalValues(msg, specified, default)[msg[i].name] == Plain(specified, default, msg[i].name)
  {
    var r := SignalValues(msg, specified, default);
    assert msg[i].name in Names(msg);
    var s := SelectorIndex(msg, specified);
    if s.Some? {
      assert IsLastSelector(msg, specified, s.value);
    }
  }

  /** The worked example: a message with selector `sel` and a group member `val`
      whose selector id is 5; specifying only `val` resolves `sel` to 5. */
  lemma SelectorScenario()
    ensures SignalValues([Signal("sel", true, None), Signal("val", false, Some([5, 7]))],
                         map["val" := -1], 0)
            == map["sel" := 5, "val" := -1]
  {
    var msg := [Signal("sel", true, None), Signal("val", false, Some([5, 7]))];
    var spec := map["val" := -1];
    assert IsFirstMultiplexer(msg, 0);
    assert IsLastSelector(msg, spec, 1);
    assert msg[0].name == "sel" && msg[1].name == "val";
    assert Names(msg) == {"sel", "val"} by {
      assert msg[0].name in Names(msg) && msg[1].name in Names(msg);
    }
  }
}
