/** The three-valued logic of expr.h: `no < mod < yes`, with minimum, maximum and reflection. */
module Tristates {

  type Tristate = t: int | 0 <= t <= 2

  const NO: Tristate := 0
  const MOD: Tristate := 1
  const YES: Tristate := 2

  function And(a: Tristate, b: Tristate): Tristate {
    if a < b then a else b
  }

  function Or(a: Tristate, b: Tristate): Tristate {
    if a > b then a else b
  }

  function Not(a: Tristate): Tristate {
    2 - a
  }

  /** The letter that stands for a tristate value in configuration files. */
  function TriName(t: Tristate): string {
    if t == NO then "n" else if t == MOD then "m" else "y"
  }

  lemma TriNameInjective(s: Tristate, t: Tristate)
    ensures TriName(s) == TriName(t) ==> s == t
  {
    assert "n"[0] == 'n' && "m"[0] == 'm' && "y"[0] == 'y';
  }
}

/** An optional value: the model of a pointer that may be NULL. */
module Options {
  datatype Option<+T> = None | Some(value: T)
}
