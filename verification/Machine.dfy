/** Machine integers: their greatest values, and arithmetic that stops there. */
module Machine {
  const U16_MAX: nat := 0xFFFF
  const U32_MAX: nat := 0xFFFF_FFFF
  const U64_MAX: nat := 0xFFFF_FFFF_FFFF_FFFF
  const USIZE_MAX: nat := U64_MAX

  function Saturated(n: int, max: nat): (r: int)
    ensures r <= n && r <= max && (r == n || r == max)
  {
    if n < max then n else max
  }
}
