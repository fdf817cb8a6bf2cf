/**
 * The libnx input driver as the windows use it: `hidScanInput` refreshes a
 * process-wide input state, and `hidKeysDown`, `hidKeysUp` and `hidKeysHeld`
 * read its three key words for controller `CONTROLLER_P1_AUTO`.
 */
module Hid {

  /**
   * A `u64` key word of libnx, as its high and low 32-bit halves; the
   * windows' `as u32` casts keep only the low half.
   */
  datatype KeyWord = KeyWord(high: bv32, low: bv32)

  /** The three key words of one tick: pressed, released and held. */
  datatype KeyMasks = KeyMasks(down: KeyWord, up: KeyWord, held: KeyWord)

  /**
   * A scripted stand-in for the process-wide libnx input state: after `n`
   * scans it reports `script(n)`. Nothing else about the hardware is modelled.
   */
  class HidDriver {
    const script: nat -> KeyMasks
    var scans: nat

    constructor (script: nat -> KeyMasks)
      ensures this.script == script && scans == 0
    {
      this.script := script;
      scans := 0;
    }

    /** What the driver reports until the next scan. */
    function Current(): KeyMasks
      reads this
    {
      script(scans)
    }

    function KeysDown(): KeyWord
      reads this
    {
      Current().down
    }

    function KeysUp(): KeyWord
      reads this
    {
      Current().up
    }

    function KeysHeld(): KeyWord
      reads this
    {
      Current().held
    }

    /** `hidScanInput`: move on to the next scripted tick. */
    method ScanInput()
      modifies this
      ensures scans == old(scans) + 1
    {
      scans := scans + 1;
    }
  }
}
