# libnx-rs window: the input decoder and the event backlog

This project models the part of the libnx-rs window crate that sits between
the Switch's raw key masks and piston's event API, and proves what it does.

- **The button/hat decoder** (`Controller`). `parse_key_events` reads one
  32-bit key mask together with the transition it reports: pressed, released
  or held. It yields one piston `Input::Button` per set bit, lowest bit first,
  and the event for bit `i` carries id `i + 1`. A held mask yields nothing.
  Ids 13 to 24 (the direction pad and both sticks) become hat events whose
  direction is chosen by `id % 4`. Every other id becomes an ordinary
  controller button. The bit loop is a method proved against the function
  `KeyEvents`. Lemmas prove the following about `KeyEvents`:
  - its length is the number of set bits;
  - its ids strictly increase;
  - every event comes from a set bit, and every set bit has its event;
  - its last event is the one for the highest set bit;
  - each event carries its fields;
  - the edge cases hold: mask 0, all 32 bits, a single bit.
- **The event backlog of the two windows** (`EventBacklog`, `Simple`,
  `GlWindow`).
  - `NxFullWindow` and `NxGlWindow` both keep a backlog of decoded events.
  - `check_inputs` scans the driver and appends the pressed events, then the
    released events, then the held events (there are none).
  - `poll_event` runs `check_inputs` and pops the newest event, so the backlog
    is a stack.
  - `wait_event` and `wait_event_timeout` repeat `poll_event`.
  - Each window is a class whose methods update the backlog in place. They
    are proved against pure functions of the old backlog and of what the
    driver reports: `Refresh`, `Poll` and the run of polls `Polls`. Lemmas
    about those functions state the stack order, the length bookkeeping and
    when a poll yields nothing.
- **The driver and the clock.**
  - The libnx input driver is a class `HidDriver` with a scripted behaviour:
    after `n` scans it reports the key words `script(n)`.
  - `Instant::now` is a sequence of elapsed-time readings passed to
    `WaitEventTimeout`. Reading `k` is the reading taken before poll `k`.
- **Shared types.** The piston types a decoded event is made of are in
  `PistonInput` and `PistonWindow`, and the fixed-width integer types are in
  `Prelude`.

## Model

| member | source | states |
|---|---|---|
| Controller.ParseKeyEvents | src/controller.rs:63-81 | The pushed events are exactly `KeyEvents` of the mask. Their number is 0 for a held mask and the number of set bits otherwise. |
| Controller.KeyEventsLength | src/controller.rs:67-79 | A held mask decodes to nothing. A pressed or released mask decodes to as many events as it has set bits. |
| Controller.KeyEventsIds | src/controller.rs:71-78 | Every decoded event is the event of one set bit `i` of the mask, and it carries id `i + 1`, which lies in 1..32. |
| Controller.KeyEventsIncreasing | src/controller.rs:71-78 | The ids of the decoded events strictly increase, so the bits are taken lowest first. |
| Controller.KeyEventsComplete | src/controller.rs:71-78 | Under a press or release, every set bit `i` of the mask has an event with id `i + 1`. |
| Controller.KeyEventsLast | src/controller.rs:71-79 | Under a press or release of a nonzero mask, the last event is the one for the highest set bit. |
| Controller.ZeroMask | src/controller.rs:71-75 | Mask 0 decodes to nothing under every state. |
| Controller.AllKeysDown | src/controller.rs:71-79 | The all-ones mask, pressed, decodes to exactly 32 events: the presses of ids 1 to 32 in order. |
| Controller.OneKey | src/controller.rs:71-79 | A mask with only bit `i` set, pressed or released, decodes to the single event with id `i + 1`. |
| Controller.KeyEventFields | src/controller.rs:85-96 | The event for an id carries that id and the given controller, has no scancode, and is a release for `Up` and a press otherwise. |
| Controller.KeyEventsFields | src/controller.rs:85-96 | Every decoded event carries the given controller and no scancode. It is a release under `Up` and a press under `Down` or `Held`. |
| Controller.ParseButtonClassified | src/controller.rs:99-126 | An id is a hat exactly when it lies in 13..24. A hat's direction cycles left, up, right, down from `DLEFT`, so the `return None` arm is never taken. Every other id is a controller button with that id. |
| Controller.NamedDirections | src/controller.rs:27-41 | Each named pad and stick id decodes to the direction its name gives. `MINUS` and `SL`, just outside the range, are plain buttons. |
| Controller.ParseHatEvent | src/controller.rs:111-126 | The hat of an id, or none outside 13..24. `ParseButtonClassified` and `NamedDirections` state which ids are hats and which direction each gets. |
| Controller.ParseButtonEvent | src/controller.rs:106-108 | The ordinary button of an id for a controller. `ParseButtonClassified` states that every id outside 13..24 becomes this button. |
| Controller.ParseButton | src/controller.rs:99-103 | The hat of an id when it has one, its ordinary button otherwise. `ParseButtonClassified` states the split in both directions. |
| Controller.ParseArgs | src/controller.rs:85-96 | The button arguments of one event. `KeyEventFields` states their press flag, id, controller and missing scancode. |
| Controller.KeyEvent | src/controller.rs:77 | The event one set bit becomes. `KeyEventFields` states its fields. |
| Controller.EventsBelow | src/controller.rs:71-79 | The events of the set bits below `n`, the state of the loop after `n` rounds. `EventsBelowLength`, `EventsBelowIds`, `EventsBelowIncreasing` and `EventsBelowComplete` state its length, ids, order and completeness. |
| Controller.KeyEvents | src/controller.rs:63-81 | What decoding a mask yields. `KeyEventsLength`, `KeyEventsIds`, `KeyEventsIncreasing` and `KeyEventsComplete` together fix the whole sequence. |
| Controller.HighestSetBit | src/controller.rs:71-79 | For a nonzero mask, the result is a set bit and no higher bit is set. |
| Controller.HighestBelow | src/controller.rs:71-79 | The result is the highest set bit below `n`, or -1 when there is none. |
| Controller.PopCountZero | src/controller.rs:71-75 | A mask has no set bits exactly when it is 0. |
| Controller.NoBitIsZero | src/controller.rs:73 | A mask that fails the decoder's bit test at all 32 positions is 0. |
| Controller.OneBit | src/controller.rs:72-73 | The mask `1 << i` passes the bit test at position `j` exactly when `j == i`. |
| EventBacklog.ToU32 | src/simple.rs:44-52 | The `as u32` cast of a key word keeps its low 32 bits. |
| EventBacklog.Refresh | src/simple.rs:41-56 | The backlog after `check_inputs`. `RefreshAppends` states what it appends and its length. |
| EventBacklog.Pop | src/simple.rs:108 | `Vec::pop`. `PopRoundTrip` states its inverse and when it returns nothing. |
| EventBacklog.Poll | src/simple.rs:106-109 | `poll_event` as a function of the backlog and the tick. `PollLength`, `PollNone`, `PollReleasedFirst`, `PollPressedNext`, `PollOlderLast` and `PollKeepsOlder` state its behaviour. |
| EventBacklog.Polls | src/simple.rs:97-122 | The run of polls the waiting loops make: one result per poll, in order. `PollsNext` states how one more poll extends it. |
| EventBacklog.NthPoll | src/simple.rs:99 | What one poll of a run returns. `PollsNext` states it is `Poll` of the backlog the earlier polls left. |
| EventBacklog.Pending | src/simple.rs:107 | The backlog a poll of a run pops from: what the earlier polls left, refreshed by that poll's tick. |
| EventBacklog.RefreshAppends | src/simple.rs:41-56 | `check_inputs` keeps the old backlog as a prefix. It appends the pressed events, then the released events, and the held part adds nothing. The length grows by the set bits of the pressed and released words. |
| EventBacklog.PopRoundTrip | src/simple.rs:108 | Pushing back what `pop` returned gives the old backlog back. `pop` returns nothing exactly on an empty backlog. |
| EventBacklog.PollLength | src/simple.rs:106-109 | After a poll the backlog holds the old length plus the set bits of the pressed and released words, minus one. It holds 0 when that total is 0. |
| EventBacklog.PollNone | src/simple.rs:106-109 | A poll yields nothing exactly when the backlog was empty and both the pressed and released words are 0. |
| EventBacklog.PollReleasedFirst | src/simple.rs:44-54 | When any key was released, a poll returns the release of the highest released key. |
| EventBacklog.PollPressedNext | src/simple.rs:44-54 | When nothing was released but a key was pressed, a poll returns the press of the highest pressed key. |
| EventBacklog.PollOlderLast | src/simple.rs:106-109 | When nothing was pressed or released, a poll returns the newest older event and removes it. |
| EventBacklog.PollKeepsOlder | src/simple.rs:106-109 | While a poll brings new events, no older event is delivered: the old backlog stays a prefix. |
| EventBacklog.PollsNext | src/simple.rs:97-104 | Take a run of polls with no event so far. One more poll extends it by that poll's result, and the run then either still has no event or ends in its first one. |
| EventBacklog.PressThenIdle | src/gl_window.rs:170-173 | With bit 0 pressed on the first tick and an idle second tick, two polls from an empty backlog return the press of button 1 on controller 1, then nothing. |
| Hid.HidDriver.constructor | src/simple.rs:43-52 | The process-wide libnx input state that these lines scan and read. Nothing in the source constructs it. Here it starts at tick 0 of its script. |
| Hid.HidDriver.KeysDown | src/simple.rs:44 | `hidKeysDown`: the pressed word of the current tick. |
| Hid.HidDriver.KeysUp | src/simple.rs:48 | `hidKeysUp`: the released word of the current tick. |
| Hid.HidDriver.KeysHeld | src/simple.rs:52 | `hidKeysHeld`: the held word of the current tick. |
| Hid.HidDriver.ScanInput | src/simple.rs:43 | A scan moves the driver to the next tick. |
| Simple.NxFullWindow.constructor | src/simple.rs:33-38 | A new window has the framebuffer's size, is not marked to close and has an empty backlog. |
| Simple.NxFullWindow.CheckInputs | src/simple.rs:41-56 | One scan. The backlog becomes the old backlog followed by the decoded pressed, released and held words of the new tick. |
| Simple.NxFullWindow.PollEvent | src/simple.rs:106-109 | One scan. The event and the new backlog are `Poll` of the old backlog and the new tick: the last element after `check_inputs`, removed. |
| Simple.NxFullWindow.NextPoll | src/simple.rs:99 | A poll, seen as the next step of a run without events, continues that run. |
| Simple.NxFullWindow.WaitEvent | src/simple.rs:97-104 | The returned event is the first that the polls of the run yield. Every earlier poll yielded nothing, and the backlog is the one that run leaves. |
| Simple.NxFullWindow.WaitEventTimeout | src/simple.rs:111-122 | A poll is made only after a reading of at most `timeout`. A returned event is the first one a poll of the run yielded. Nothing is returned only when every poll came back empty and a reading then exceeded `timeout`. |
| Simple.NxFullWindow.SetShouldClose | src/simple.rs:77-83 | `should_close` then reports the value, and only the close flag changes. |
| Simple.NxFullWindow.ShouldClose | src/simple.rs:81-83 | The close flag. `SetShouldClose` states what it returns after a set. |
| Simple.NxFullWindow.Size | src/simple.rs:85-87 | The stored size. `DrawSize` is stated equal to it. |
| Simple.NxFullWindow.DrawSize | src/simple.rs:124-126 | The drawing size is the window's stored size. |
| GlWindow.NxGlWindow.constructor | src/gl_window.rs:99-105 | A new window is not marked to close and has an empty backlog. |
| GlWindow.NxGlWindow.CheckInputs | src/gl_window.rs:108-123 | One scan. The backlog becomes the old backlog followed by the decoded pressed, released and held words of the new tick. |
| GlWindow.NxGlWindow.PollEvent | src/gl_window.rs:170-173 | One scan. The event and the new backlog are `Poll` of the old backlog and the new tick. |
| GlWindow.NxGlWindow.NextPoll | src/gl_window.rs:163 | A poll, seen as the next step of a run without events, continues that run. |
| GlWindow.NxGlWindow.WaitEvent | src/gl_window.rs:161-168 | The returned event is the first that the polls of the run yield, and the backlog is the one that run leaves. |
| GlWindow.NxGlWindow.WaitEventTimeout | src/gl_window.rs:175-186 | Polls only after readings of at most `timeout`. It returns the first event the polls yield, or nothing once a reading exceeds `timeout`. |
| GlWindow.NxGlWindow.SetShouldClose | src/gl_window.rs:141-147 | `should_close` then reports the value, and the backlog is untouched. |
| GlWindow.NxGlWindow.ShouldClose | src/gl_window.rs:145-147 | The close flag. `SetShouldClose` states what it returns after a set. |
| GlWindow.NxGlWindow.Size | src/gl_window.rs:149-155 | The size is always 1280 by 720. |
| GlWindow.NxGlWindow.DrawSize | src/gl_window.rs:188-190 | The drawing size is the window's size, 1280 by 720. |
| GlWindow.NxGlWindow.IsCurrent | src/gl_window.rs:198-200 | The window always reports that it is current. |
| GlWindow.NxGlWindow.MakeCurrent | src/gl_window.rs:202-204 | Does nothing: it modifies no state. |

## Left out

- The libnx graphics calls are not modelled. This covers `gfxInitDefault`,
  `gfxGetFramebuffer`, the flush, swap and vsync calls in `swap_buffers`, and
  `gfxExit` in `Drop`. They are foreign calls without logic of their own.
  The framebuffer pointer and `get_framebuffer` go with them. The full-screen
  window receives the dimensions the framebuffer call reports as constructor
  arguments.
- The EGL set-up and teardown are not modelled. This covers `init_egl`,
  `deinit_egl`, `Drop`, `swap_buffers` and `get_proc_address` of the GL window
  for the same reason.
- GlWindow.NxGlWindow.constructor: does not model the `Err` result of `new`
  or the display, context and surface it stores, because both come from EGL.
- `build_from_window_settings` is not modelled: it ignores its settings and
  calls `new`. `src/lib.rs` is not modelled: it holds only module
  declarations.
- Hid.HidDriver: the driver is a script of key words per tick, not the
  hardware. Each `u64` key word is split into halves, and the `as u32` cast
  keeps the low half.
- `Instant::now` and `Duration` are not modelled. WaitEventTimeout receives
  the successive elapsed readings as natural numbers.
- Simple.NxFullWindow.WaitEvent and GlWindow.NxGlWindow.WaitEvent require
  that some future poll yields an event. Without one the source spins for
  ever, and this model only covers runs that end.
- Simple.NxFullWindow.WaitEventTimeout and
  GlWindow.NxGlWindow.WaitEventTimeout require that some reading exceeds the
  timeout. The source relies on the clock advancing.
- From the piston crates, only the event and size types the decoder and the
  windows build are modelled. Piston's other input variants, motion and
  text events are not.
- The getters `Simple.NxFullWindow.Size` and the two `ShouldClose` functions
  have no contract of their own. Each returns its field, and `DrawSize` and
  `SetShouldClose` state what their results are.
- A first-in-first-out backlog is a possible redesign, but the code is a
  stack and this model follows the code. `pop` takes the newest event first,
  as the stack-order lemmas above state.
