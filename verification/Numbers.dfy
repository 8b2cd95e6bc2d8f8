/** Arithmetic the service's modules share. */
module Numbers {
  function Max(a: int, b: int): int { if a > b then a else b }

  /** `Instant::duration_since`, which saturates at zero. */
  function Since(now: int, t: int): (d: nat)
    ensures now >= t ==> d == now - t
  {
    Max(now - t, 0)
  }

  /** Integer division toward zero. */
  function TruncDiv(a: int, b: int): int
    requires b != 0
  {
    if a >= 0 then a / b else -((-a) / b)
  }
}
