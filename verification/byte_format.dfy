/**
 `formatBytes`: a byte count as a human-readable label. The count is divided
 by 1024 until it drops below 1024; the number of divisions picks the unit,
 and one decimal is shown only for a scaled value below 10 in a unit above
 bytes. Dividing by 1024 is exact on reals, so the scaled value is a `real`.
 */
module ByteFormat {

  const Units: seq<string> := ["bytes", "KB", "MB", "GB", "TB", "PB", "EB", "ZB", "YB"]

  function Pow1024(l: nat): (p: nat)
    ensures p >= 1
  {
    if l == 0 then 1 else 1024 * Pow1024(l - 1)
  }

  /** `units[l]`; past the end of the array the label reads "undefined". */
  function UnitName(l: nat): string
  {
    if l < |Units| then Units[l] else "undefined"
  }

  /** The label before `toFixed` turns the scaled value into digits. */
  datatype Label = Label(scaled: real, fractionDigits: nat, unitIndex: nat, unit: string)

  /** The unit index `l` brackets `n` between consecutive powers of 1024 (bytes below 1024). */
  predicate Brackets(n: nat, l: nat)
  {
    n < Pow1024(l + 1) && (l > 0 ==> Pow1024(l) <= n)
  }

  method FormatBytes(n: nat) returns (fmt: Label)
    ensures Brackets(n, fmt.unitIndex)
    ensures fmt.scaled * Pow1024(fmt.unitIndex) as real == n as real
    ensures fmt.unitIndex > 0 ==> 1.0 <= fmt.scaled < 1024.0
    ensures fmt.fractionDigits == 1 <==> fmt.unitIndex > 0 && n < 10 * Pow1024(fmt.unitIndex)
    ensures fmt.fractionDigits == 0 || fmt.fractionDigits == 1
    ensures fmt.unit == UnitName(fmt.unitIndex)
  {
    var x, l := ScaleDown(n);
    fmt := LabelOf(x, l, n);
  }

  /** The loop of `formatBytes`: divide by 1024 while the value is at least 1024, counting the divisions. */
  method ScaleDown(n: nat) returns (x: real, l: nat)
    ensures 0.0 <= x < 1024.0
    ensures x * Pow1024(l) as real == n as real
    ensures l > 0 ==> x >= 1.0
  {
    x := n as real;
    l := 0;
    while x >= 1024.0
      invariant x * Pow1024(l) as real == n as real
      invariant l > 0 ==> x >= 1.0
      invariant x >= 0.0
      decreases x.Floor
    {
      DivideStep(x, l, n);
      l := l + 1;
      x := x / 1024.0;
    }
  }

  /** The label for a scaled value the loop stopped at: one decimal only below 10 in a unit above bytes. */
  function LabelOf(x: real, l: nat, n: nat): (fmt: Label)
    requires 0.0 <= x < 1024.0 && x * Pow1024(l) as real == n as real && (l > 0 ==> x >= 1.0)
    ensures fmt.scaled == x && fmt.unitIndex == l && fmt.unit == UnitName(l)
    ensures Brackets(n, l)
    ensures fmt.fractionDigits == 1 <==> l > 0 && n < 10 * Pow1024(l)
    ensures fmt.fractionDigits == 0 || fmt.fractionDigits == 1
  {
    ScaledLabel(x, l, n);
    Label(x, if x < 10.0 && l > 0 then 1 else 0, l, UnitName(l))
  }

  /** One division by 1024 keeps `x * 1024^l = n` with `l` one higher and strictly lowers the floor of `x`. */
  lemma DivideStep(x: real, l: nat, n: nat)
    requires x >= 1024.0 && x * Pow1024(l) as real == n as real
    ensures (x / 1024.0) * Pow1024(l + 1) as real == n as real
    ensures (x / 1024.0).Floor < x.Floor
    ensures x / 1024.0 >= 1.0
  {
    assert x / 1024.0 <= x - 1.0;
    assert Pow1024(l + 1) as real == 1024.0 * Pow1024(l) as real;
    assert (x / 1024.0) * (1024.0 * Pow1024(l) as real) == x * Pow1024(l) as real;
  }

  /** Bounds on `n = x * p` from bounds on the scaled value `x`. */
  lemma Scaled(x: real, p: real, n: real)
    requires p >= 1.0 && 0.0 <= x < 1024.0 && x * p == n
    ensures n < 1024.0 * p
    ensures x >= 1.0 ==> p <= n
    ensures x < 10.0 <==> n < 10.0 * p
  {
    assert 1024.0 * p - n == (1024.0 - x) * p;
    assert n - p == (x - 1.0) * p;
    assert 10.0 * p - n == (10.0 - x) * p;
  }

  /** Where the loop stops: `l` brackets `n`, and the scaled value is below 10 exactly when `n` is below `10 * 1024^l`. */
  lemma ScaledLabel(x: real, l: nat, n: nat)
    requires 0.0 <= x < 1024.0 && x * Pow1024(l) as real == n as real && (l > 0 ==> x >= 1.0)
    ensures Brackets(n, l)
    ensures x < 10.0 <==> n < 10 * Pow1024(l)
  {
    Scaled(x, Pow1024(l) as real, n as real);
    assert Pow1024(l + 1) as real == 1024.0 * Pow1024(l) as real;
    assert (10 * Pow1024(l)) as real == 10.0 * Pow1024(l) as real;
  }

  lemma {:induction false} Pow1024Monotone(l: nat, m: nat)
    requires l <= m
    ensures Pow1024(l) <= Pow1024(m)
    decreases m
  {
    if l < m {
      Pow1024Monotone(l, m - 1);
    }
  }

  /** Only one unit index brackets a byte count, so the label's unit is determined by the count. */
  lemma UnitIndexUnique(n: nat, l: nat, m: nat)
    requires Brackets(n, l) && Brackets(n, m)
    ensures l == m
  {
    if l < m {
      Pow1024Monotone(l + 1, m);
    } else if m < l {
      Pow1024Monotone(m + 1, l);
    }
  }
}
