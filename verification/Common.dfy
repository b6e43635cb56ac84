/** Types and arithmetic that several components share. */
module Common {

  datatype Option<+T> = None | Some(value: T)

  newtype byte = x: int | 0 <= x < 256

  /** An access mask, as in state->state and in the arguments of CLOSE. */
  datatype Access = Access(read: bool, write: bool)

  /** Sequence numbers are 32 bits wide. */
  function Succ(n: nat): (r: nat) {
    (n + 1) % 0x1_0000_0000
  }
}
