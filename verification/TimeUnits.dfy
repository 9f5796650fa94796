/** Units of the scheduling modules: days in milliseconds, minutes of a day, and counting. */
module TimeUnits {

  const DAY_MS: int := 24 * 60 * 60 * 1000
  const MINUTES_A_DAY: int := 24 * 60

  function Max(a: int, b: int): int { if a < b then b else a }

  function Min(a: int, b: int): int { if a < b then a else b }

  function Bit(b: bool): nat { if b then 1 else 0 }
}
