/**
 * What both windows do with their event backlog, as functions of the old
 * backlog and what the driver reports: `check_inputs` appends the decoded
 * pressed, released and held events, `poll_event` then pops the newest one,
 * and the waiting calls repeat `poll_event`.
 */
module EventBacklog {
  import opened Prelude
  import opened PistonInput
  import opened Controller
  import opened Hid

  /** The controller id the windows decode for. */
  const Player: i32 := 1

  /** The `as u32` cast of a driver key word: it keeps the low 32 bits. */
  function ToU32(w: KeyWord): bv32
  {
    w.low
  }

  /** The backlog after `check_inputs` read `m`. */
  function Refresh(backlog: seq<Input>, m: KeyMasks): seq<Input>
  {
    backlog
    + KeyEvents(Player, LibnxKeyState.Down, ToU32(m.down))
    + KeyEvents(Player, LibnxKeyState.Up, ToU32(m.up))
    + KeyEvents(Player, LibnxKeyState.Held, ToU32(m.held))
  }

  /** What one `poll_event` returns, with the backlog it leaves. */
  datatype Step = Step(event: Option<Input>, backlog: seq<Input>)

  /** `Vec::pop`: the last element and the rest, or nothing from an empty backlog. */
  function Pop(s: seq<Input>): Step
  {
    if |s| == 0 then Step(None, s) else Step(Some(s[|s| - 1]), s[..|s| - 1])
  }

  /** `poll_event` on `backlog` when the scan reports `m`. */
  function Poll(backlog: seq<Input>, m: KeyMasks): Step
  {
    Pop(Refresh(backlog, m))
  }

  /** The results of several polls in a row, with the backlog they leave. */
  datatype Run = Run(events: seq<Option<Input>>, backlog: seq<Input>)

  /**
   * `n` polls in a row from `backlog` by a driver that had made `scans` scans:
   * poll `k` (counting from 1) reads `script(scans + k)`.
   */
  function Polls(backlog: seq<Input>, script: nat -> KeyMasks, scans: nat, n: nat): (run: Run)
    ensures |run.events| == n
    decreases n, 2
  {
    if n == 0 then Run([], backlog)
    else
      var step := NthPoll(backlog, script, scans, n);
      Run(Polls(backlog, script, scans, n - 1).events + [step.event], step.backlog)
  }

  /** What poll `n` (counting from 1) of such a run returns, with the backlog it leaves. */
  function NthPoll(backlog: seq<Input>, script: nat -> KeyMasks, scans: nat, n: nat): Step
    requires n > 0
    decreases n, 1
  {
    Pop(Pending(backlog, script, scans, n))
  }

  /** The backlog poll `n` pops from: what the earlier polls left, refreshed by scan `scans + n`. */
  function Pending(backlog: seq<Input>, script: nat -> KeyMasks, scans: nat, n: nat): seq<Input>
    requires n > 0
    decreases n, 0
  {
    Refresh(Polls(backlog, script, scans, n - 1).backlog, script(scans + n))
  }

  /** The last of `n` such polls yields an event. */
  ghost predicate EventByPoll(backlog: seq<Input>, script: nat -> KeyMasks, scans: nat, n: nat)
  {
    n > 0 && NthPoll(backlog, script, scans, n).event.Some?
  }

  /** No poll of `run` yielded an event. */
  ghost predicate NoEvent(run: Run)
  {
    forall k :: 0 <= k < |run.events| ==> run.events[k].None?
  }

  /** The last poll of `run` yielded `evt` and every earlier one yielded nothing. */
  ghost predicate FirstEvent(run: Run, evt: Input)
  {
    && |run.events| > 0
    && run.events[|run.events| - 1] == Some(evt)
    && forall k :: 0 <= k < |run.events| - 1 ==> run.events[k].None?
  }

  /**
   * The outcome of a `wait_event_timeout` that made the polls of `run`:
   * poll `k` was made after the elapsed-time reading `elapsed[k]`, which was
   * within the timeout; an event is the first one a poll yielded; no event
   * means every poll came back empty and the next reading was past the timeout.
   */
  ghost predicate TimeoutOutcome(run: Run, evt: Option<Input>, elapsed: seq<nat>, timeout: nat)
  {
    && |run.events| < |elapsed|
    && (forall k :: 0 <= k < |run.events| ==> elapsed[k] <= timeout)
    && (evt.Some? ==> FirstEvent(run, evt.value))
    && (evt.None? ==> NoEvent(run) && elapsed[|run.events|] > timeout)
  }

  /** `check_inputs` keeps the old backlog and appends one event per set bit of the pressed and released words; held adds none. */
  lemma RefreshAppends(backlog: seq<Input>, m: KeyMasks)
    ensures Refresh(backlog, m)
      == backlog + KeyEvents(Player, LibnxKeyState.Down, ToU32(m.down)) + KeyEvents(Player, LibnxKeyState.Up, ToU32(m.up))
    ensures |Refresh(backlog, m)| == |backlog| + PopCount(ToU32(m.down)) + PopCount(ToU32(m.up))
  {
    KeyEventsLength(Player, LibnxKeyState.Down, ToU32(m.down));
    KeyEventsLength(Player, LibnxKeyState.Up, ToU32(m.up));
  }

  /** Popping and pushing back the popped event gives the backlog again; nothing is popped only from an empty one. */
  lemma PopRoundTrip(s: seq<Input>)
    ensures Pop(s).event.None? <==> s == []
    ensures Pop(s).backlog + (if Pop(s).event.Some? then [Pop(s).event.value] else []) == s
  {
  }

  /** After a poll the backlog holds every event not yet returned: one fewer than before the pop, or none. */
  lemma PollLength(backlog: seq<Input>, m: KeyMasks)
    ensures var total := |backlog| + PopCount(ToU32(m.down)) + PopCount(ToU32(m.up));
      |Poll(backlog, m).backlog| == if total == 0 then 0 else total - 1
  {
    RefreshAppends(backlog, m);
  }

  /** A poll yields nothing exactly when the backlog was empty and nothing was pressed or released. */
  lemma PollNone(backlog: seq<Input>, m: KeyMasks)
    ensures Poll(backlog, m).event.None? <==> backlog == [] && ToU32(m.down) == 0 && ToU32(m.up) == 0
  {
    RefreshAppends(backlog, m);
    PopCountZero(ToU32(m.down));
    PopCountZero(ToU32(m.up));
  }

  /** The backlog is a stack: with any key released, a poll returns the release of the highest one. */
  lemma PollReleasedFirst(backlog: seq<Input>, m: KeyMasks)
    requires ToU32(m.up) != 0
    ensures Poll(backlog, m).event == Some(KeyEvent(Player, LibnxKeyState.Up, HighestSetBit(ToU32(m.up)) + 1))
  {
    var up := ToU32(m.up);
    var released := KeyEvents(Player, LibnxKeyState.Up, up);
    var all := backlog + KeyEvents(Player, LibnxKeyState.Down, ToU32(m.down)) + released;
    assert Refresh(backlog, m) == all by {
      RefreshAppends(backlog, m);
    }
    KeyEventsLast(Player, LibnxKeyState.Up, up);
    assert all[|all| - 1] == released[|released| - 1];
  }

  /** With nothing released but a key pressed, a poll returns the press of the highest pressed key. */
  lemma PollPressedNext(backlog: seq<Input>, m: KeyMasks)
    requires ToU32(m.up) == 0 && ToU32(m.down) != 0
    ensures Poll(backlog, m).event == Some(KeyEvent(Player, LibnxKeyState.Down, HighestSetBit(ToU32(m.down)) + 1))
  {
    var down := ToU32(m.down);
    var pressed := KeyEvents(Player, LibnxKeyState.Down, down);
    var all := backlog + pressed;
    assert Refresh(backlog, m) == all by {
      RefreshAppends(backlog, m);
      ZeroMask(Player, LibnxKeyState.Up);
    }
    KeyEventsLast(Player, LibnxKeyState.Down, down);
    assert all[|all| - 1] == pressed[|pressed| - 1];
  }

  /** With nothing pressed or released, a poll returns the newest event left from earlier polls. */
  lemma PollOlderLast(backlog: seq<Input>, m: KeyMasks)
    requires ToU32(m.up) == 0 && ToU32(m.down) == 0 && backlog != []
    ensures Poll(backlog, m) == Step(Some(backlog[|backlog| - 1]), backlog[..|backlog| - 1])
  {
    assert Refresh(backlog, m) == backlog by {
      RefreshAppends(backlog, m);
      ZeroMask(Player, LibnxKeyState.Up);
      ZeroMask(Player, LibnxKeyState.Down);
    }
  }

  /** While a poll brings new events, none of the older ones is delivered: the old backlog stays as a prefix. */
  lemma PollKeepsOlder(backlog: seq<Input>, m: KeyMasks)
    requires ToU32(m.down) != 0 || ToU32(m.up) != 0
    ensures backlog <= Poll(backlog, m).backlog
  {
    RefreshAppends(backlog, m);
    PopCountZero(ToU32(m.down));
    PopCountZero(ToU32(m.up));
  }

  /**
   * The bookkeeping of a waiting loop: a poll that continues a run without
   * events extends it; the run then still has none, or has found its first.
   */
  lemma PollsNext(backlog: seq<Input>, script: nat -> KeyMasks, scans: nat, n: nat, evt: Option<Input>, rest: seq<Input>)
    requires NoEvent(Polls(backlog, script, scans, n))
    requires Step(evt, rest) == Poll(Polls(backlog, script, scans, n).backlog, script(scans + n + 1))
    ensures Polls(backlog, script, scans, n + 1) == Run(Polls(backlog, script, scans, n).events + [evt], rest)
    ensures NthPoll(backlog, script, scans, n + 1) == Step(evt, rest)
    ensures evt.None? ==> NoEvent(Polls(backlog, script, scans, n + 1))
    ensures evt.Some? ==> FirstEvent(Polls(backlog, script, scans, n + 1), evt.value)
  {
    assert Pending(backlog, script, scans, n + 1) == Refresh(Polls(backlog, script, scans, n).backlog, script(scans + n + 1));
  }

  /** Bit 0 pressed on one tick arrives as a press of button 1 on controller 1; an idle tick after it yields nothing. */
  lemma PressThenIdle()
    ensures Polls([], n => if n == 1 then KeyMasks(KeyWord(0, 1), KeyWord(0, 0), KeyWord(0, 0)) else KeyMasks(KeyWord(0, 0), KeyWord(0, 0), KeyWord(0, 0)), 0, 2).events
      == [Some(Input.Button(ButtonArgs(Press, Controller(ControllerButton(1, 1)), None))), None]
  {
    var press := KeyMasks(KeyWord(0, 1), KeyWord(0, 0), KeyWord(0, 0));
    var idle := KeyMasks(KeyWord(0, 0), KeyWord(0, 0), KeyWord(0, 0));
    OneKey(Player, LibnxKeyState.Down, 0);
    assert ToU32(press.down) == BitMask(0);
    ZeroMask(Player, LibnxKeyState.Up);
    ZeroMask(Player, LibnxKeyState.Down);
    assert Poll([], press) == Step(Some(KeyEvent(Player, LibnxKeyState.Down, 1)), []);
    assert Poll([], idle) == Step(None, []);
  }
}
