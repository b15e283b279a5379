/** Exact-real arithmetic facts that the solver needs one at a time. */
module RealMath {

  function Over(x: real, y: real): real
    requires y != 0.0
  {
    x / y
  }

  function Times(x: real, y: real): real { x * y }

  lemma TimesEqual(x: real, p: real, q: real)
    requires p == q
    ensures x * p == x * q
  {}

  lemma Cancel(x: real, y: real, z: real)
    requires z != 0.0 && x * z == y * z
    ensures x == y
  {
    assert (x - y) * z == 0.0;
  }

  lemma ExactQuotient(x: real, q: real, w: real)
    requires w > 0.0 && x == q * w
    ensures x / w == q
  {
    Cancel(x / w, q, w);
  }

  lemma DivideIsTimesInverse(x: real, y: real)
    requires y != 0.0
    ensures x / y == (1.0 / y) * x
  {
    TimesEqual(x, (1.0 / y) * y, 1.0);
    Cancel(x / y, (1.0 / y) * x, y);
  }

  lemma DivideThenTimes(x: real, y: real, z: real)
    requires y != 0.0
    ensures x / y * z == ((1.0 / y) * z) * x
  {
    var inverse := 1.0 / y;
    DivideIsTimesInverse(x, y);
    TimesEqual(z, x / y, inverse * x);
    assert z * (inverse * x) == (inverse * z) * x;
  }

  function Abs(x: real): real { if x < 0.0 then -x else x }

  // ----- sums and means -----

  function Sum(values: seq<real>): real {
    if values == [] then 0.0 else Sum(values[..|values| - 1]) + values[|values| - 1]
  }

  lemma EmptySum()
    ensures Sum([]) == 0.0
  {}

  lemma {:induction false} SumFront(values: seq<real>)
    requires values != []
    ensures Sum(values) == values[0] + Sum(values[1..])
  {
    if |values| == 1 {
      assert values[..0] == [] && values[1..] == [];
    } else {
      SumFront(values[..|values| - 1]);
      assert values[1..][..|values| - 2] == values[..|values| - 1][1..];
    }
  }

  lemma SumExtended(values: seq<real>, a: nat, b: nat)
    requires a <= b < |values|
    ensures Sum(values[a..b + 1]) == Sum(values[a..b]) + values[b]
  {
    assert values[a..b + 1][..b - a] == values[a..b];
  }

  lemma {:induction false} SumPositive(values: seq<real>)
    requires values != [] && forall i :: 0 <= i < |values| ==> values[i] > 0.0
    ensures Sum(values) > 0.0
  {
    if |values| == 1 {
      assert values[..0] == [];
    } else {
      SumPositive(values[..|values| - 1]);
    }
  }

  lemma {:induction false} SumScaled(older: seq<real>, newer: seq<real>, g: real)
    requires |older| == |newer| && forall i :: 0 <= i < |older| ==> newer[i] == older[i] * g
    ensures Sum(newer) == Sum(older) * g
  {
    if older != [] {
      SumScaled(older[..|older| - 1], newer[..|newer| - 1], g);
    }
  }

  function Mean(values: seq<real>): real
    requires values != []
  {
    Sum(values) / |values| as real
  }

  /** `newer` starts with `older`, every value multiplied by `g`. */
  ghost predicate ScaledPrefix(older: seq<real>, newer: seq<real>, g: real) {
    |older| <= |newer| && forall i {:trigger newer[i]} :: 0 <= i < |older| ==> newer[i] == older[i] * g
  }
}
