/**
 * The event types of the piston `input` crate that the decoder builds.
 * Only the variants this code constructs are modelled.
 */
module PistonInput {
  import opened Prelude

  /** Whether a button went down or came up. */
  datatype ButtonState = Press | Release

  /** The four directions the decoder reports for a hat. */
  datatype HatState = Up | Right | Down | Left

  /** An ordinary button `button` on controller `id`. */
  datatype ControllerButton = ControllerButton(id: i32, button: u8)

  /** Hat `which` on controller `id`, pointing in direction `state`. */
  datatype ControllerHat = ControllerHat(id: i32, which: u8, state: HatState)

  datatype Button = Controller(controller: ControllerButton) | Hat(hat: ControllerHat)

  datatype ButtonArgs = ButtonArgs(state: ButtonState, button: Button, scancode: Option<i32>)

  datatype Input = Button(args: ButtonArgs)
}

/** The `Size` record of the piston `window` crate. */
module PistonWindow {
  import opened Prelude

  datatype Size = Size(width: u32, height: u32)
}
