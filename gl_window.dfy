/**
 * `NxGlWindow`, the OpenGL window: its close flag and the backlog of decoded
 * input events it hands out one at a time. Its size is fixed.
 */
module GlWindow {
  import opened Prelude
  import opened PistonInput
  import PistonWindow
  import opened Controller
  import opened Hid
  import opened EventBacklog

  class NxGlWindow {
    var shouldClose: bool
    var eventBacklog: seq<Input>
    /** The input driver the window scans. */
    const hid: HidDriver

    /** `new` once the EGL display, context and surface are set up. */
    constructor (hid: HidDriver)
      ensures this.hid == hid
      ensures !shouldClose && eventBacklog == []
    {
      this.hid := hid;
      shouldClose := false;
      eventBacklog := [];
    }

    /** Scans the driver once and appends what its three key words decode to. */
    method CheckInputs()
      modifies this`eventBacklog, hid
      ensures hid.scans == old(hid.scans) + 1
      ensures eventBacklog == Refresh(old(eventBacklog), hid.Current())
    {
      hid.ScanInput();
      var kDown := ToU32(hid.KeysDown());
      var parseEventsD := ParseKeyEvents(Player, LibnxKeyState.Down, kDown);
      eventBacklog := eventBacklog + parseEventsD;

      var kUp := ToU32(hid.KeysUp());
      var parseEventsU := ParseKeyEvents(Player, LibnxKeyState.Up, kUp);
      eventBacklog := eventBacklog + parseEventsU;

      var kHeld := ToU32(hid.KeysHeld());
      var parseEventsH := ParseKeyEvents(Player, LibnxKeyState.Held, kHeld);
      eventBacklog := eventBacklog + parseEventsH;
    }

    /** Scans once, then pops the newest event of the backlog. */
    method PollEvent() returns (evt: Option<Input>)
      modifies this`eventBacklog, hid
      ensures hid.scans == old(hid.scans) + 1
      ensures Step(evt, eventBacklog) == Poll(old(eventBacklog), hid.Current())
    {
      CheckInputs();
      if |eventBacklog| == 0 {
        evt := None;
      } else {
        evt := Some(eventBacklog[|eventBacklog| - 1]);
        eventBacklog := eventBacklog[..|eventBacklog| - 1];
      }
    }

    /**
     * `PollEvent` seen as poll `n + 1` of a run from `backlog0` by a driver
     * that had made `scans0` scans, none of whose polls so far yielded an event.
     */
    method NextPoll(ghost backlog0: seq<Input>, ghost scans0: nat, ghost n: nat) returns (evt: Option<Input>)
      requires hid.scans == scans0 + n && eventBacklog == Polls(backlog0, hid.script, scans0, n).backlog
      requires NoEvent(Polls(backlog0, hid.script, scans0, n))
      modifies this`eventBacklog, hid
      ensures hid.scans == scans0 + n + 1
      ensures Step(evt, eventBacklog) == NthPoll(backlog0, hid.script, scans0, n + 1)
      ensures eventBacklog == Polls(backlog0, hid.script, scans0, n + 1).backlog
      ensures evt.None? ==> NoEvent(Polls(backlog0, hid.script, scans0, n + 1))
      ensures evt.Some? ==> FirstEvent(Polls(backlog0, hid.script, scans0, n + 1), evt.value)
    {
      evt := PollEvent();
      PollsNext(backlog0, hid.script, scans0, n, evt, eventBacklog);
    }

    /**
     * Polls until a poll yields an event. The source spins for ever when none
     * comes; here some future poll must yield one.
     */
    method WaitEvent() returns (evt: Input)
      requires exists n: nat :: EventByPoll(eventBacklog, hid.script, hid.scans, n)
      modifies this`eventBacklog, hid
      ensures hid.scans > old(hid.scans)
      ensures FirstEvent(Polls(old(eventBacklog), hid.script, old(hid.scans), hid.scans - old(hid.scans)), evt)
      ensures eventBacklog == Polls(old(eventBacklog), hid.script, old(hid.scans), hid.scans - old(hid.scans)).backlog
    {
      ghost var backlog0, scans0 := eventBacklog, hid.scans;
      ghost var deadline: nat :| EventByPoll(backlog0, hid.script, scans0, deadline);
      ghost var polls: nat := 0;
      while true
        invariant hid.scans == scans0 + polls && polls < deadline
        invariant eventBacklog == Polls(backlog0, hid.script, scans0, polls).backlog
        invariant NoEvent(Polls(backlog0, hid.script, scans0, polls))
        decreases deadline - polls
      {
        var e := NextPoll(backlog0, scans0, polls);
        polls := polls + 1;
        if e.Some? {
          return e.value;
        }
      }
    }

    /**
     * Polls while the elapsed time read from the clock is at most `timeout`;
     * `elapsed[k]` is the reading taken before poll `k`. Some reading must
     * exceed the timeout.
     */
    method WaitEventTimeout(timeout: nat, elapsed: seq<nat>) returns (evt: Option<Input>)
      requires exists k :: 0 <= k < |elapsed| && elapsed[k] > timeout
      modifies this`eventBacklog, hid
      ensures hid.scans >= old(hid.scans)
      ensures TimeoutOutcome(Polls(old(eventBacklog), hid.script, old(hid.scans), hid.scans - old(hid.scans)), evt, elapsed, timeout)
      ensures eventBacklog == Polls(old(eventBacklog), hid.script, old(hid.scans), hid.scans - old(hid.scans)).backlog
    {
      ghost var backlog0, scans0 := eventBacklog, hid.scans;
      ghost var expiry :| 0 <= expiry < |elapsed| && elapsed[expiry] > timeout;
      var i := 0;
      var tCur := elapsed[i];
      while tCur <= timeout
        invariant i <= expiry && tCur == elapsed[i]
        invariant hid.scans == scans0 + i
        invariant forall k :: 0 <= k < i ==> elapsed[k] <= timeout
        invariant eventBacklog == Polls(backlog0, hid.script, scans0, i).backlog
        invariant NoEvent(Polls(backlog0, hid.script, scans0, i))
        decreases expiry - i
      {
        evt := NextPoll(backlog0, scans0, i);
        if evt.Some? {
          return;
        }
        i := i + 1;
        tCur := elapsed[i];
      }
      evt := None;
    }

    method SetShouldClose(value: bool)
      modifies this`shouldClose
      ensures ShouldClose() == value
    {
      shouldClose := value;
    }

    function ShouldClose(): bool
      reads this
    {
      shouldClose
    }

    /** The size is not queried from the system: it is always 1280 by 720. */
    function Size(): (s: PistonWindow.Size)
      ensures s.width == 1280 && s.height == 720
    {
      PistonWindow.Size(1280, 720)
    }

    /** The drawing area is the whole window. */
    function DrawSize(): (s: PistonWindow.Size)
      ensures s == Size()
    {
      Size()
    }

    /** Only one window can exist at a time, so it is always the current one. */
    function IsCurrent(): (current: bool)
      ensures current
    {
      true
    }

    /** Nothing to do for the same reason. */
    method MakeCurrent()
    {
    }
  }
}
