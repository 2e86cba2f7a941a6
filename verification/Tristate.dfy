/** The three-valued lattice n < m < y of Kconfig, numbered as the C enum numbers it. */
module Tristates {

  type Tristate = t: int | 0 <= t <= 2

  const NO: Tristate := 0
  const MOD: Tristate := 1
  const YES: Tristate := 2

  function Min(a: Tristate, b: Tristate): Tristate {
    if a < b then a else b
  }

  function Max(a: Tristate, b: Tristate): Tristate {
    if a > b then a else b
  }

  /** The text a bool or tristate value is written and compared as. */
  function TristateName(t: Tristate): string {
    if t == NO then "n" else if t == MOD then "m" else "y"
  }
}
