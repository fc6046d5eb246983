/** Missing values and the pandas arithmetic on them.

    pandas marks a missing number with NaN. Here a possibly-missing number is an
    `Option<real>`: `None` plays the part of NaN, and every operation below spells
    out what pandas does when an operand is missing. */
module Nullable {

  /** A value that may be missing. */
  datatype Option<+T> = None | Some(value: T)

  /** A raw cell of one of the input tables, before numeric coercion. A cell
      holding a number, or text that spells one (which `pd.to_numeric` parses),
      is `Number` with that value; any other text is `Text`; an empty cell is
      `Blank`. */
  datatype Cell = Number(x: real) | Text(s: string) | Blank

  /** `pd.to_numeric(..., errors="coerce")`: numbers pass, anything else becomes missing. */
  function ToNumeric(c: Cell): Option<real>
  {
    match c
    case Number(x) => Some(x)
    case _ => None
  }

  /** Column subtraction: missing as soon as either side is missing. */
  function Minus(a: Option<real>, b: Option<real>): (r: Option<real>)
    ensures r.Some? <==> a.Some? && b.Some?
    ensures r.Some? ==> r.value + b.value == a.value
  {
    if a.Some? && b.Some? then Some(a.value - b.value) else None
  }

  /** `Series.clip(lower=0)`: the larger of the value and 0; a missing value stays missing. */
  function ClipLower0(a: Option<real>): (r: Option<real>)
    ensures r.Some? <==> a.Some?
    ensures r.Some? ==> r.value >= 0.0 && r.value >= a.value
    ensures r.Some? ==> r.value == 0.0 || r.value == a.value
  {
    match a
    case None => None
    case Some(x) => Some(if x < 0.0 then 0.0 else x)
  }

  /** The comparison `x > 0` on a column: false on a missing value. */
  predicate Positive(a: Option<real>)
  {
    a.Some? && a.value > 0.0
  }

  /** The comparison `x >= bound` on a column: false on a missing value. */
  predicate AtLeast(a: Option<real>, bound: real)
  {
    a.Some? && a.value >= bound
  }

  /** A missing value counted as 0, as `sum` does when it skips NaN. */
  function OrZero(a: Option<real>): real
  {
    match a
    case None => 0.0
    case Some(x) => x
  }

  /** `n` copies of `x` added up, that is `n * x` written as repeated addition,
      so that the contracts below stay within linear arithmetic. */
  function Times(n: nat, x: real): real
  {
    if n == 0 then 0.0 else x + Times(n - 1, x)
  }

  lemma {:induction false} TimesIsProduct(n: nat, x: real)
    ensures Times(n, x) == n as real * x
  {
    if n > 0 {
      TimesIsProduct(n - 1, x);
      assert n as real * x == (n - 1) as real * x + x;
    }
  }

  /** A positive number of copies keeps the order of the copied values. */
  lemma {:induction false} TimesCancel(n: nat, x: real, y: real)
    requires n > 0
    requires Times(n, x) <= Times(n, y)
    ensures x <= y
  {
    if y < x {
      TimesGrows(n, y, x);
    }
  }

  lemma {:induction false} TimesGrows(n: nat, x: real, y: real)
    requires n > 0 && x < y
    ensures Times(n, x) < Times(n, y)
  {
    if n > 1 {
      TimesGrows(n - 1, x, y);
    }
  }

  /** `n` copies of `t / n` add back up to `t`. */
  lemma TimesQuotient(n: nat, t: real)
    requires n > 0
    ensures Times(n, t / n as real) == t
  {
    TimesIsProduct(n, t / n as real);
  }

  /** `num / den`, where `0 / 0` is NaN. A denominator of zero only ever meets a
      numerator of zero in this pipeline, so every zero denominator gives `None`. */
  function Ratio(num: nat, den: nat): (r: Option<real>)
    ensures r.Some? <==> den > 0
    ensures r.Some? ==> r.value >= 0.0
    ensures r.Some? && num <= den ==> r.value <= 1.0
    ensures r.Some? ==> Times(den, r.value) == num as real
  {
    if den == 0 then None
    else
      var q := num as real / den as real;
      TimesQuotient(den, num as real);
      TimesZero(den);
      TimesCancel(den, 0.0, q);
      TimesOne(den);
      assert num <= den ==> q <= 1.0 by {
        if num <= den {
          TimesCancel(den, q, 1.0);
        }
      }
      Some(q)
  }

  /** The same ratio, as a percentage: `den` copies of it make 100 times `num`,
      and it is 0 exactly when `num` is. */
  function Percent(num: nat, den: nat): (r: Option<real>)
    ensures r.Some? <==> den > 0
    ensures r.Some? ==> 0.0 <= r.value
    ensures r.Some? && num <= den ==> r.value <= 100.0
    ensures r.Some? ==> Times(den, r.value) == 100.0 * num as real
    ensures r == Some(0.0) <==> den > 0 && num == 0
  {
    match Ratio(num, den)
    case None => None
    case Some(q) =>
      TimesScale(den, q);
      TimesZero(den);
      assert num == 0 ==> q == 0.0 by {
        if num == 0 {
          TimesCancel(den, q, 0.0);
          TimesCancel(den, 0.0, q);
        }
      }
      Some(q * 100.0)
  }

  lemma {:induction false} TimesScale(n: nat, x: real)
    ensures Times(n, x * 100.0) == 100.0 * Times(n, x)
  {
    if n > 0 {
      TimesScale(n - 1, x);
    }
  }

  lemma {:induction false} TimesOne(n: nat)
    ensures Times(n, 1.0) == n as real
  {
    if n > 0 {
      TimesOne(n - 1);
    }
  }

  lemma {:induction false} TimesZero(n: nat)
    ensures Times(n, 0.0) == 0.0
  {
    if n > 0 {
      TimesZero(n - 1);
    }
  }

  /** Python's `int(x)` on a float: truncation toward zero. */
  function Trunc(x: real): (n: int)
    ensures x >= 0.0 ==> 0 <= n && n as real <= x < n as real + 1.0
    ensures x < 0.0 ==> n <= 0 && n as real - 1.0 < x <= n as real
  {
    if x >= 0.0 then x.Floor else -((-x).Floor)
  }
}
