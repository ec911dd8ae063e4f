// The three-valued logic of scripts/config/expr.h: n < m < y, with minimum,
// maximum and reflection as the connectives.

module Wrappers {
  datatype Option<+T> = None | Some(value: T)
}

module TristateLogic {
  type Tristate = t: int | 0 <= t <= 2

  const NO: Tristate := 0
  const MOD: Tristate := 1
  const YES: Tristate := 2

  function TriAnd(a: Tristate, b: Tristate): Tristate {
    if a < b then a else b
  }

  function TriOr(a: Tristate, b: Tristate): Tristate {
    if a > b then a else b
  }

  function TriNot(a: Tristate): Tristate {
    2 - a
  }

  /** The text a bool or tristate symbol shows for its value. */
  function TriName(t: Tristate): string {
    if t == NO then "n" else if t == MOD then "m" else "y"
  }

  function OfBool(b: bool): Tristate {
    if b then YES else NO
  }
}
