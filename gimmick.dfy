/** The tempo-change and stop records of `src/gimmick.rs`. Offsets are in
    rhythmic units (192 per measure); times are seconds. */
module Gimmick {

  /** A pause of `time` seconds inserted at `offset`. */
  datatype Stop = Stop(offset: int, time: real)

  /** From `offset` on, the tempo is `bpm` beats per minute. */
  datatype Bpm = Bpm(offset: int, bpm: real)
}
