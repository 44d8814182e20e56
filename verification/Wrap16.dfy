/** SQ_TYPE: sequence numbers are 16-bit and wrap around. */
module Wrap16 {
  const TP16: nat := 65536

  /** The cast to SQ_TYPE. */
  function W16(x: int): (w: nat)
    ensures w < TP16
  {
    x % TP16
  }

  lemma ModShift(x: int, k: int)
    ensures (x + k * TP16) % TP16 == x % TP16
  {
    var q := x / TP16;
    assert x + k * TP16 == (q + k) * TP16 + x % TP16;
  }
}
