/**
 * The button/hat decoder: turns one 32-bit key mask read from libnx, together
 * with the transition it reports (pressed, released or held this tick), into
 * the piston input events for the set bits, lowest bit first.
 */
module Controller {
  import opened Prelude
  import opened PistonInput

  // The identifiers a set bit decodes to (`LibnxButtonId`): bit i has id i + 1.
  const A: u8 := 1
  const B: u8 := 2
  const X: u8 := 3
  const Y: u8 := 4
  const LSTICK: u8 := 5
  const RSTICK: u8 := 6
  const L: u8 := 7
  const R: u8 := 8
  const ZL: u8 := 9
  const ZR: u8 := 10
  const PLUS: u8 := 11
  const MINUS: u8 := 12
  const DLEFT: u8 := 13
  const DUP: u8 := 14
  const DRIGHT: u8 := 15
  const DDOWN: u8 := 16
  // The sticks are read as two more direction pads.
  const LSTICK_LEFT: u8 := 17
  const LSTICK_UP: u8 := 18
  const LSTICK_RIGHT: u8 := 19
  const LSTICK_DOWN: u8 := 20
  const RSTICK_LEFT: u8 := 21
  const RSTICK_UP: u8 := 22
  const RSTICK_RIGHT: u8 := 23
  const RSTICK_DOWN: u8 := 24
  const SL: u8 := 25
  const SR: u8 := 26

  /** The transition a key mask reports. */
  datatype LibnxKeyState = Up | Down | Held

  /** The directions of a pad in the order of its ids: left, up, right, down. */
  const PadOrder: seq<HatState> := [HatState.Left, HatState.Up, HatState.Right, HatState.Down]

  // ---------------------------------------------------------------------------
  // Bits of a mask

  /** The mask of bit `i` alone, `1 << i`. */
  function BitMask(i: nat): bv32
    requires i < 32
  {
    1 << (i as bv5)
  }

  /** Bit `i` of `keys` is set, tested as the decoder tests it. */
  predicate Bit(keys: bv32, i: nat)
    requires i < 32
  {
    BitMask(i) & keys != 0
  }

  /** The indices below `n` of the set bits of `keys`. */
  ghost function BitsBelow(keys: bv32, n: nat): set<nat>
    requires n <= 32
  {
    set i: nat | i < n && Bit(keys, i)
  }

  /** The number of set bits of `keys`. */
  ghost function PopCount(keys: bv32): nat
  {
    |BitsBelow(keys, 32)|
  }

  /** The mask of the `n` lowest bits. */
  function LowMask(n: nat): bv32
    requires n <= 32
  {
    if n == 0 then 0 else LowMask(n - 1) | BitMask(n - 1)
  }

  /** The highest set bit below `n`, or -1 when there is none. */
  function HighestBelow(keys: bv32, n: nat): (i: int)
    requires n <= 32
    ensures -1 <= i < n
    ensures i >= 0 ==> Bit(keys, i)
    ensures forall j :: i < j < n ==> !Bit(keys, j)
  {
    if n == 0 then -1
    else if Bit(keys, n - 1) then n - 1
    else HighestBelow(keys, n - 1)
  }

  /** The highest set bit of a non-zero mask. */
  function HighestSetBit(keys: bv32): (i: nat)
    requires keys != 0
    ensures i < 32 && Bit(keys, i)
    ensures forall j :: i < j < 32 ==> !Bit(keys, j)
  {
    var h := HighestBelow(keys, 32);
    assert h >= 0 by {
      if h < 0 {
        NoBitIsZero(keys);
      }
    }
    h
  }

  lemma {:induction false} ClearBelow(keys: bv32, n: nat)
    requires n <= 32
    requires forall i :: 0 <= i < n ==> !Bit(keys, i)
    ensures keys & LowMask(n) == 0
  {
    if n > 0 {
      ClearBelow(keys, n - 1);
      assert !Bit(keys, n - 1);
      var low, top := LowMask(n - 1), BitMask(n - 1);
      assert keys & (low | top) == (keys & low) | (keys & top);
    }
  }

  lemma LowMaskFull()
    ensures LowMask(32) == 0xFFFF_FFFF
  {
    assert LowMask(8) == 0xFF;
    assert LowMask(16) == 0xFFFF;
    assert LowMask(24) == 0xFF_FFFF;
  }

  /** A mask none of whose 32 bits is set is zero. */
  lemma NoBitIsZero(keys: bv32)
    requires forall i :: 0 <= i < 32 ==> !Bit(keys, i)
    ensures keys == 0
  {
    ClearBelow(keys, 32);
    LowMaskFull();
  }

  /** The bits of a one-bit mask. */
  lemma OneBit(i: nat, j: nat)
    requires i < 32 && j < 32
    ensures Bit(BitMask(i), j) <==> i == j
  {
  }

  /** A mask has no set bits exactly when it is zero. */
  lemma PopCountZero(keys: bv32)
    ensures PopCount(keys) == 0 <==> keys == 0
  {
    if PopCount(keys) == 0 {
      forall i | 0 <= i < 32
        ensures !Bit(keys, i)
      {
        assert Bit(keys, i) <==> i in BitsBelow(keys, 32);
      }
      NoBitIsZero(keys);
    }
    if keys == 0 {
      assert BitsBelow(keys, 32) == {};
    }
  }

  // ---------------------------------------------------------------------------
  // One event

  /** The hat event of id `button`, for ids 13 to 24; `None` for every other id. */
  function ParseHatEvent(controller: i32, button: u8): Option<ControllerHat>
  {
    if button < 13 || button > 24 then None
    else
      var dirnum := button % 4;
      match dirnum
      case 0 => Some(ControllerHat(controller, button, HatState.Down))
      case 1 => Some(ControllerHat(controller, button, HatState.Left))
      case 2 => Some(ControllerHat(controller, button, HatState.Up))
      case 3 => Some(ControllerHat(controller, button, HatState.Right))
      case _ => None
  }

  function ParseButtonEvent(controller: i32, button: u8): ControllerButton
  {
    ControllerButton(controller, button)
  }

  /** The button of id `button`: its hat when it has one, an ordinary button otherwise. */
  function ParseButton(controller: i32, button: u8): Button
  {
    match ParseHatEvent(controller, button)
    case Some(hat) => Hat(hat)
    case None => Controller(ParseButtonEvent(controller, button))
  }

  /** The arguments of the event for id `button`; every state but `Up` reads as a press. */
  function ParseArgs(controller: i32, state: LibnxKeyState, button: u8): ButtonArgs
  {
    var argState := match state
      case Up => Release
      case _ => Press;
    ButtonArgs(argState, ParseButton(controller, button), None)
  }

  /** The event one set bit with id `button` becomes. */
  function KeyEvent(controller: i32, state: LibnxKeyState, button: u8): Input
  {
    Input.Button(ParseArgs(controller, state, button))
  }

  /** The id an event carries: the button id or the hat id. */
  function EventId(e: Input): u8
  {
    match e.args.button
    case Controller(b) => b.button
    case Hat(h) => h.which
  }

  /** The controller an event comes from. */
  function EventController(e: Input): i32
  {
    match e.args.button
    case Controller(b) => b.id
    case Hat(h) => h.id
  }

  /**
   * The ids 13 to 24 (the direction pad and both sticks) are hats whose
   * direction cycles left, up, right, down from `DLEFT` on; every other id is
   * an ordinary button with that id.
   */
  lemma ParseButtonClassified(controller: i32, button: u8)
    ensures ParseHatEvent(controller, button).Some? <==> DLEFT <= button <= RSTICK_DOWN
    ensures DLEFT <= button <= RSTICK_DOWN ==>
      ParseButton(controller, button) == Hat(ControllerHat(controller, button, PadOrder[(button - DLEFT) % 4]))
    ensures !(DLEFT <= button <= RSTICK_DOWN) ==>
      ParseButton(controller, button) == Controller(ControllerButton(controller, button))
  {
    if DLEFT <= button <= RSTICK_DOWN {
      var k := (button - DLEFT) / 4;
      assert button == DLEFT + 4 * k + (button - DLEFT) % 4;
    }
  }

  /** Each named direction id decodes to the direction its name says. */
  lemma NamedDirections(controller: i32)
    ensures ParseButton(controller, DLEFT).hat.state == HatState.Left
    ensures ParseButton(controller, DUP).hat.state == HatState.Up
    ensures ParseButton(controller, DRIGHT).hat.state == HatState.Right
    ensures ParseButton(controller, DDOWN).hat.state == HatState.Down
    ensures ParseButton(controller, LSTICK_LEFT).hat.state == HatState.Left
    ensures ParseButton(controller, LSTICK_UP).hat.state == HatState.Up
    ensures ParseButton(controller, LSTICK_RIGHT).hat.state == HatState.Right
    ensures ParseButton(controller, LSTICK_DOWN).hat.state == HatState.Down
    ensures ParseButton(controller, RSTICK_LEFT).hat.state == HatState.Left
    ensures ParseButton(controller, RSTICK_UP).hat.state == HatState.Up
    ensures ParseButton(controller, RSTICK_RIGHT).hat.state == HatState.Right
    ensures ParseButton(controller, RSTICK_DOWN).hat.state == HatState.Down
    ensures ParseButton(controller, MINUS).Controller? && ParseButton(controller, SL).Controller?
  {
  }

  /** The event for id `button` carries that id, the controller, no scancode and the press flag of `state`. */
  lemma KeyEventFields(controller: i32, state: LibnxKeyState, button: u8)
    ensures var e := KeyEvent(controller, state, button);
      && EventId(e) == button
      && EventController(e) == controller
      && e.args.scancode == None
      && e.args.state == (if state == LibnxKeyState.Up then Release else Press)
  {
  }

  // ---------------------------------------------------------------------------
  // All events of a mask

  /** The events of the set bits below `n`, lowest bit first. */
  function EventsBelow(controller: i32, state: LibnxKeyState, keys: bv32, n: nat): seq<Input>
    requires n <= 32
  {
    if n == 0 then []
    else
      EventsBelow(controller, state, keys, n - 1)
      + (if Bit(keys, n - 1) then [KeyEvent(controller, state, n)] else [])
  }

  /** What decoding `keys` under `state` yields: nothing when held, else one event per set bit. */
  function KeyEvents(controller: i32, state: LibnxKeyState, keys: bv32): seq<Input>
  {
    if state == LibnxKeyState.Held then [] else EventsBelow(controller, state, keys, 32)
  }

  /** Decodes `keys` bit by bit, pushing one event per set bit. */
  method ParseKeyEvents(controller: i32, state: LibnxKeyState, keys: bv32) returns (retval: seq<Input>)
    ensures retval == KeyEvents(controller, state, keys)
    ensures |retval| == if state == LibnxKeyState.Held then 0 else PopCount(keys)
  {
    retval := [];
    if state == LibnxKeyState.Held {
      return;
    }
    for idx := 0 to 32
      invariant retval == EventsBelow(controller, state, keys, idx)
    {
      if !Bit(keys, idx) {
        continue;
      }
      var button: u8 := idx + 1;
      var nevent := Input.Button(ParseArgs(controller, state, button));
      retval := retval + [nevent];
    }
    KeyEventsLength(controller, state, keys);
  }

  lemma {:induction false} EventsBelowLength(controller: i32, state: LibnxKeyState, keys: bv32, n: nat)
    requires n <= 32
    ensures |EventsBelow(controller, state, keys, n)| == |BitsBelow(keys, n)|
  {
    if n == 0 {
      assert BitsBelow(keys, 0) == {};
    } else {
      EventsBelowLength(controller, state, keys, n - 1);
      BitsBelowStep(keys, n);
    }
  }

  /** The set bits below `n` are those below `n - 1`, and bit `n - 1` when it is set. */
  lemma BitsBelowStep(keys: bv32, n: nat)
    requires 0 < n <= 32
    ensures n - 1 !in BitsBelow(keys, n - 1)
    ensures BitsBelow(keys, n) == BitsBelow(keys, n - 1) + (if Bit(keys, n - 1) then {n - 1} else {})
  {
  }

  /** Every event of `r` is the event of a set bit of `keys` below `n`: its id is that bit's index plus one. */
  ghost predicate FromSetBits(r: seq<Input>, controller: i32, state: LibnxKeyState, keys: bv32, n: nat)
    requires n <= 32
  {
    forall k :: 0 <= k < |r| ==>
      && 1 <= EventId(r[k]) <= n
      && Bit(keys, EventId(r[k]) - 1)
      && r[k] == KeyEvent(controller, state, EventId(r[k]))
  }

  /** The ids of the events of `r` strictly increase. */
  ghost predicate IdsIncreasing(r: seq<Input>)
  {
    forall j, k :: 0 <= j < k < |r| ==> EventId(r[j]) < EventId(r[k])
  }

  /** Every set bit of `keys` below `n` has an event in `r`. */
  ghost predicate CoversSetBits(r: seq<Input>, keys: bv32, n: nat)
    requires n <= 32
  {
    forall i :: 0 <= i < n && Bit(keys, i) ==> exists k :: 0 <= k < |r| && EventId(r[k]) == i + 1
  }

  lemma {:induction false} EventsBelowIds(controller: i32, state: LibnxKeyState, keys: bv32, n: nat)
    requires n <= 32
    ensures FromSetBits(EventsBelow(controller, state, keys, n), controller, state, keys, n)
  {
    if n > 0 {
      EventsBelowIds(controller, state, keys, n - 1);
      KeyEventFields(controller, state, n);
      var r0 := EventsBelow(controller, state, keys, n - 1);
      var r := EventsBelow(controller, state, keys, n);
      forall k | 0 <= k < |r|
        ensures 1 <= EventId(r[k]) <= n && Bit(keys, EventId(r[k]) - 1)
        ensures r[k] == KeyEvent(controller, state, EventId(r[k]))
      {
        if k < |r0| {
          assert r[k] == r0[k];
        } else {
          assert r[k] == KeyEvent(controller, state, n);
        }
      }
    }
  }

  lemma {:induction false} EventsBelowIncreasing(controller: i32, state: LibnxKeyState, keys: bv32, n: nat)
    requires n <= 32
    ensures IdsIncreasing(EventsBelow(controller, state, keys, n))
  {
    if n > 0 {
      EventsBelowIncreasing(controller, state, keys, n - 1);
      EventsBelowIds(controller, state, keys, n - 1);
      KeyEventFields(controller, state, n);
      var r0 := EventsBelow(controller, state, keys, n - 1);
      var r := EventsBelow(controller, state, keys, n);
      forall j, k | 0 <= j < k < |r|
        ensures EventId(r[j]) < EventId(r[k])
      {
        assert r[j] == r0[j];
        if k < |r0| {
          assert r[k] == r0[k];
        } else {
          assert r[k] == KeyEvent(controller, state, n);
        }
      }
    }
  }

  lemma {:induction false} EventsBelowComplete(controller: i32, state: LibnxKeyState, keys: bv32, n: nat)
    requires n <= 32
    ensures CoversSetBits(EventsBelow(controller, state, keys, n), keys, n)
  {
    if n > 0 {
      EventsBelowComplete(controller, state, keys, n - 1);
      var r0 := EventsBelow(controller, state, keys, n - 1);
      var r := EventsBelow(controller, state, keys, n);
      forall i | 0 <= i < n && Bit(keys, i)
        ensures exists k :: 0 <= k < |r| && EventId(r[k]) == i + 1
      {
        if i < n - 1 {
          var k :| 0 <= k < |r0| && EventId(r0[k]) == i + 1;
          assert r[k] == r0[k];
        } else {
          KeyEventFields(controller, state, n);
          assert r[|r0|] == KeyEvent(controller, state, n);
        }
      }
    }
  }

  /** Decoding yields one event per set bit, and nothing when held. */
  lemma KeyEventsLength(controller: i32, state: LibnxKeyState, keys: bv32)
    ensures |KeyEvents(controller, state, keys)| == if state == LibnxKeyState.Held then 0 else PopCount(keys)
  {
    if state != LibnxKeyState.Held {
      EventsBelowLength(controller, state, keys, 32);
    }
  }

  /** Every decoded event is the event of a set bit, with id that bit's index plus one, in 1 to 32. */
  lemma KeyEventsIds(controller: i32, state: LibnxKeyState, keys: bv32)
    ensures FromSetBits(KeyEvents(controller, state, keys), controller, state, keys, 32)
  {
    if state != LibnxKeyState.Held {
      EventsBelowIds(controller, state, keys, 32);
    }
  }

  /** The decoded events come in strictly increasing id order, that is, lowest bit first. */
  lemma KeyEventsIncreasing(controller: i32, state: LibnxKeyState, keys: bv32)
    ensures IdsIncreasing(KeyEvents(controller, state, keys))
  {
    if state != LibnxKeyState.Held {
      EventsBelowIncreasing(controller, state, keys, 32);
    }
  }

  /** For a press or a release, no set bit is skipped. */
  lemma KeyEventsComplete(controller: i32, state: LibnxKeyState, keys: bv32)
    requires state != LibnxKeyState.Held
    ensures CoversSetBits(KeyEvents(controller, state, keys), keys, 32)
  {
    EventsBelowComplete(controller, state, keys, 32);
  }

  /** Every decoded event carries the controller, no scancode, and Release for `Up`, Press for `Down`. */
  lemma KeyEventsFields(controller: i32, state: LibnxKeyState, keys: bv32)
    ensures forall e :: e in KeyEvents(controller, state, keys) ==>
      && EventController(e) == controller
      && e.args.scancode == None
      && e.args.state == (if state == LibnxKeyState.Up then Release else Press)
  {
    KeyEventsIds(controller, state, keys);
    var r := KeyEvents(controller, state, keys);
    forall e | e in r
      ensures EventController(e) == controller && e.args.scancode == None
      ensures e.args.state == (if state == LibnxKeyState.Up then Release else Press)
    {
      var k :| 0 <= k < |r| && r[k] == e;
      KeyEventFields(controller, state, EventId(e));
    }
  }

  /** The last decoded event of a non-zero mask is the event of its highest set bit. */
  lemma KeyEventsLast(controller: i32, state: LibnxKeyState, keys: bv32)
    requires state != LibnxKeyState.Held && keys != 0
    ensures |KeyEvents(controller, state, keys)| > 0
    ensures KeyEvents(controller, state, keys)[|KeyEvents(controller, state, keys)| - 1]
      == KeyEvent(controller, state, HighestSetBit(keys) + 1)
  {
    var r := KeyEvents(controller, state, keys);
    var h := HighestSetBit(keys);
    var k: nat;
    assert exists k :: 0 <= k < |r| && EventId(r[k]) == h + 1 by {
      KeyEventsComplete(controller, state, keys);
    }
    k :| 0 <= k < |r| && EventId(r[k]) == h + 1;
    var id := EventId(r[|r| - 1]);
    assert id - 1 <= h && r[|r| - 1] == KeyEvent(controller, state, id) by {
      KeyEventsIds(controller, state, keys);
    }
    assert h + 1 <= id by {
      KeyEventsIncreasing(controller, state, keys);
    }
  }

  lemma {:induction false} EventsBelowZero(controller: i32, state: LibnxKeyState, n: nat)
    requires n <= 32
    ensures EventsBelow(controller, state, 0, n) == []
  {
    if n > 0 {
      EventsBelowZero(controller, state, n - 1);
      assert !Bit(0, n - 1);
    }
  }

  /** Mask zero decodes to nothing, whatever the state. */
  lemma ZeroMask(controller: i32, state: LibnxKeyState)
    ensures KeyEvents(controller, state, 0) == []
  {
    if state != LibnxKeyState.Held {
      EventsBelowZero(controller, state, 32);
    }
  }

  lemma {:induction false} EventsBelowAllOnes(controller: i32, state: LibnxKeyState, n: nat)
    requires n <= 32
    ensures |EventsBelow(controller, state, 0xFFFF_FFFF, n)| == n && forall k :: 0 <= k < n ==> EventsBelow(controller, state, 0xFFFF_FFFF, n)[k] == KeyEvent(controller, state, k + 1)
  {
    if n > 0 {
      EventsBelowAllOnes(controller, state, n - 1);
      assert Bit(0xFFFF_FFFF, n - 1);
    }
  }

  /** All 32 keys pressed decode to 32 presses with ids 1 to 32 in order. */
  lemma AllKeysDown(controller: i32)
    ensures |KeyEvents(controller, LibnxKeyState.Down, 0xFFFF_FFFF)| == 32 && forall k :: 0 <= k < 32 ==> KeyEvents(controller, LibnxKeyState.Down, 0xFFFF_FFFF)[k] == KeyEvent(controller, LibnxKeyState.Down, k + 1)
  {
    EventsBelowAllOnes(controller, LibnxKeyState.Down, 32);
  }

  lemma {:induction false} EventsBelowOneBit(controller: i32, state: LibnxKeyState, i: nat, n: nat)
    requires i < 32 && n <= 32
    ensures EventsBelow(controller, state, BitMask(i), n) == if n <= i then [] else [KeyEvent(controller, state, i + 1)]
  {
    if n > 0 {
      EventsBelowOneBit(controller, state, i, n - 1);
      OneBit(i, n - 1);
    }
  }

  /** A mask with the single bit `i` set decodes to the one event with id `i + 1`. */
  lemma OneKey(controller: i32, state: LibnxKeyState, i: nat)
    requires state != LibnxKeyState.Held && i < 32
    ensures KeyEvents(controller, state, BitMask(i)) == [KeyEvent(controller, state, i + 1)]
  {
    EventsBelowOneBit(controller, state, i, 32);
  }
}
