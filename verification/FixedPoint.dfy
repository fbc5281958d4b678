/** Q16.16 fixed point and the PID controller of constrained.c. Numbers are the raw
    integers; one unit is 1/65536. */
module FixedPoint {

  const Q16_ONE: int := 0x1_0000

  predicate FitsInt32(x: int) { -0x8000_0000 <= x < 0x8000_0000 }

  /** The conversion to a 32-bit integer, which keeps the low 32 bits. */
  function ToInt32(x: int): (r: int)
    ensures FitsInt32(r)
    ensures FitsInt32(x) ==> r == x
  {
    (x + 0x8000_0000) % 0x1_0000_0000 - 0x8000_0000
  }

  function Abs(x: int): (r: int)
    ensures r >= 0
  {
    if x < 0 then -x else x
  }

  /** C's division, which truncates toward zero. */
  function Quotient(a: int, b: int): int
    requires b != 0
  {
    if (a >= 0) == (b > 0) then Abs(a) / Abs(b) else -(Abs(a) / Abs(b))
  }

  /** The shift of a 64-bit product rounds down. */
  function Q16Mul(a: int, b: int): int { ToInt32(a * b / Q16_ONE) }

  function Q16Div(a: int, b: int): int
    requires b != 0
  {
    ToInt32(Quotient(a * Q16_ONE, b))
  }

  /** When the exact product is representable, the result is at most the exact
      product and less than one unit below it. */
  lemma MulBound(a: int, b: int)
    requires FitsInt32(a * b / Q16_ONE)
    ensures Q16Mul(a, b) * Q16_ONE <= a * b < (Q16Mul(a, b) + 1) * Q16_ONE
  {
  }

  lemma AbsMul(x: int, y: int)
    ensures Abs(x * y) == Abs(x) * Abs(y)
  {
    assert (-x) * y == -(x * y) && x * (-y) == -(x * y) && (-x) * (-y) == x * y;
  }

  lemma MulLess(x: int, y: int, z: int)
    requires x <= y && z >= 0
    ensures x * z <= y * z
  {
  }

  lemma DivisionBound(n: nat, d: nat, k: int)
    requires d > 0 && k == n / d
    ensures 0 <= k * d <= n < k * d + d
  {
  }

  lemma SignedProduct(k: int, b: int)
    ensures (-k) * b == -(k * b) && k * (-b) == -(k * b) && (-k) * (-b) == k * b
  {
  }

  /** Truncation loses less than one divisor, and never overshoots. */
  lemma QuotientBound(a: int, b: int)
    requires b != 0
    ensures Abs(a - Quotient(a, b) * b) < Abs(b)
    ensures Abs(Quotient(a, b)) * Abs(b) <= Abs(a)
  {
    var k := Abs(a) / Abs(b);
    DivisionBound(Abs(a), Abs(b), k);
    SignedProduct(k, b);
    assert Quotient(a, b) == if (a >= 0) == (b > 0) then k else -k;
  }

  /** What a multiplication of the quotient gives before its last conversion. */
  lemma BackFromQuotient(a: int, b: int, q: int, m: int)
    requires b != 0 && Abs(b) <= Q16_ONE && Abs(a * Q16_ONE - q * b) < Abs(b)
    ensures var t := (q - 0x1_0000_0000 * m) * b / Q16_ONE;
            a - Q16_ONE * (m * b) - 1 <= t <= a - Q16_ONE * (m * b)
  {
    var rest := a * Q16_ONE - q * b;
    assert (q - 0x1_0000_0000 * m) * b == (a - Q16_ONE * (m * b)) * Q16_ONE - rest;
  }

  /** How often a number wraps around 32 bits. */
  function Wraps(x: int): (m: int)
    ensures x == ToInt32(x) + 0x1_0000_0000 * m
    ensures m == 0 <==> FitsInt32(x)
    ensures Abs(m) * 0x1_0000_0000 <= Abs(x) + 0x8000_0000
  {
    (x + 0x8000_0000) / 0x1_0000_0000
  }

  lemma SmallDivisor(a: int, q: int, d: nat)
    requires FitsInt32(a) && !FitsInt32(q) && Abs(q) * d <= Abs(a) * Q16_ONE
    ensures d <= Q16_ONE && (d == Q16_ONE ==> a == -0x8000_0000)
  {
    MulLess(0x8000_0000, Abs(q), d);
  }

  lemma WrapsBound(q: int, m: int, d: nat)
    requires m == Wraps(q) && m != 0 && d > 0
    ensures d <= Abs(m) * d && 0x1_0000_0000 * (Abs(m) * d) <= Abs(q) * d + 0x8000_0000 * d
  {
    MulLess(1, Abs(m), d);
    MulLess(Abs(m) * 0x1_0000_0000, Abs(q) + 0x8000_0000, d);
    assert Abs(m) * 0x1_0000_0000 * d == 0x1_0000_0000 * (Abs(m) * d);
    assert (Abs(q) + 0x8000_0000) * d == Abs(q) * d + 0x8000_0000 * d;
  }

  /** A quotient too large for 32 bits has a small divisor, and wraps seldom. */
  lemma LargeQuotient(a: int, b: int, q: int, m: int)
    requires FitsInt32(a) && b != 0 && !FitsInt32(q) && m == Wraps(q)
    requires Abs(q) * Abs(b) <= Abs(a) * Q16_ONE
    ensures Abs(b) <= Q16_ONE
    ensures 0 < Abs(m * b) <= Q16_ONE
    ensures Abs(m * b) == Q16_ONE ==> a == -0x8000_0000 && Abs(b) == Q16_ONE
  {
    SmallDivisor(a, q, Abs(b));
    WrapsBound(q, m, Abs(b));
    AbsMul(m, b);
  }

  /** Multiplying a quotient back gives the dividend, within |b|/65536 + 1 units. */
  predicate MulUndoesDiv(a: int, b: int)
    requires b != 0
  {
    Abs(Q16Mul(Q16Div(a, b), b) - a) * Q16_ONE < Abs(b) + Q16_ONE
  }

  /** It does when the quotient is representable. */
  lemma SmallQuotient(a: int, b: int)
    requires FitsInt32(a) && b != 0 && FitsInt32(Quotient(a * Q16_ONE, b))
    ensures MulUndoesDiv(a, b)
  {
    var q := Quotient(a * Q16_ONE, b);
    QuotientBound(a * Q16_ONE, b);
    AbsMul(q, b);
    assert FitsInt32(q * b / Q16_ONE);
    MulBound(q, b);
  }

  lemma WrappedQuotient(a: int, b: int)
    requires FitsInt32(a) && b != 0 && !FitsInt32(Quotient(a * Q16_ONE, b))
    ensures MulUndoesDiv(a, b) ==> a == -0x8000_0000 && b == -Q16_ONE
  {
    var q := Quotient(a * Q16_ONE, b);
    var m := Wraps(q);
    QuotientBound(a * Q16_ONE, b);
    LargeQuotient(a, b, q, m);
    BackFromQuotient(a, b, q, m);
    var t := Q16Div(a, b) * b / Q16_ONE;
    var turns := m * b + Q16_ONE * Wraps(t);
    assert a - Q16_ONE * turns - 1 <= ToInt32(t) <= a - Q16_ONE * turns;
    if turns == 0 {
      assert Abs(m * b) == Q16_ONE;
    }
  }

  /** For all operands: multiplying back undoes a division exactly when the quotient
      fits 32 bits, except that for the most negative dividend and -1.0 two overflows
      cancel. */
  lemma DivThenMul(a: int, b: int)
    requires FitsInt32(a) && FitsInt32(b) && b != 0
    ensures MulUndoesDiv(a, b) <==>
            FitsInt32(Quotient(a * Q16_ONE, b)) || (a == -0x8000_0000 && b == -Q16_ONE)
  {
    if FitsInt32(Quotient(a * Q16_ONE, b)) {
      SmallQuotient(a, b);
    } else {
      WrappedQuotient(a, b);
    }
  }

  /** It fails: the largest number divided by the smallest step. */
  lemma DivOverflows()
    ensures !MulUndoesDiv(0x7fff_ffff, 1)
  {
    DivThenMul(0x7fff_ffff, 1);
  }

  // ---------- the PID step ----------

  datatype Gains = Gains(kp: int, ki: int, kd: int)

  /** The part of the controller that a step changes. */
  datatype Memory = Memory(integral: int, previous: int)

  function Error(input: (int, int)): int { input.0 - input.1 }

  function NextMemory(m: Memory, error: int): Memory { Memory(m.integral + error, error) }

  function Output(g: Gains, m: Memory, error: int): int {
    Q16Mul(g.kp, error) + Q16Mul(g.ki, m.integral + error) + Q16Mul(g.kd, error - m.previous)
  }

  /** No intermediate result leaves 32 bits. */
  predicate StepFits(g: Gains, m: Memory, error: int) {
    && FitsInt32(error) && FitsInt32(m.integral + error) && FitsInt32(error - m.previous)
    && FitsInt32(g.kp * error / Q16_ONE)
    && FitsInt32(g.ki * (m.integral + error) / Q16_ONE)
    && FitsInt32(g.kd * (error - m.previous) / Q16_ONE)
    && FitsInt32(Q16Mul(g.kp, error) + Q16Mul(g.ki, m.integral + error))
    && FitsInt32(Output(g, m, error))
  }

  class Pid {
    const gains: Gains
    var integral: int
    var previous: int

    constructor (gains: Gains)
      ensures this.gains == gains && View() == Memory(0, 0)
    {
      this.gains, integral, previous := gains, 0, 0;
    }

    function View(): Memory
      reads this
    {
      Memory(integral, previous)
    }

    /** pid_step; overflow in it would be undefined, so it is the caller's to avoid. */
    method Step(setpoint: int, measured: int) returns (output: int)
      requires StepFits(gains, View(), setpoint - measured)
      modifies this
      ensures View() == NextMemory(old(View()), setpoint - measured)
      ensures output == Output(gains, old(View()), setpoint - measured)
    {
      var error := setpoint - measured;
      integral := integral + error;
      var derivative := error - previous;
      previous := error;
      output := Q16Mul(gains.kp, error) + Q16Mul(gains.ki, integral) + Q16Mul(gains.kd, derivative);
    }

    /** Any run on a fresh controller in which nothing overflows: every output is within
        three units below the exact control value of the errors so far. */
    method StepAll(inputs: seq<(int, int)>) returns (outputs: seq<int>)
      requires View() == Memory(0, 0) && RunFits(gains, inputs)
      modifies this
      ensures View() == Run(inputs) && integral == SumErrors(inputs)
      ensures |outputs| == |inputs| && AllTrack(gains, inputs, outputs)
    {
      outputs := [];
      for i := 0 to |inputs|
        invariant View() == Run(inputs[..i]) && |outputs| == i && AllTrack(gains, inputs, outputs)
      {
        assert inputs[..i + 1][..i] == inputs[..i];
        PidTracksExactValue(gains, inputs, i);
        var output := Step(inputs[i].0, inputs[i].1);
        OneMoreTracks(gains, inputs, outputs, output);
        outputs := outputs + [output];
      }
      assert inputs[..|inputs|] == inputs;
      RunRemembers(inputs);
    }
  }

  // ---------- whole runs ----------

  /** The memory after a run of (setpoint, measured) inputs. */
  function Run(inputs: seq<(int, int)>): Memory {
    if inputs == [] then Memory(0, 0)
    else NextMemory(Run(inputs[..|inputs| - 1]), Error(inputs[|inputs| - 1]))
  }

  predicate RunFits(g: Gains, inputs: seq<(int, int)>) {
    forall i :: 0 <= i < |inputs| ==> StepFits(g, Run(inputs[..i]), Error(inputs[i]))
  }

  function SumErrors(inputs: seq<(int, int)>): int {
    if inputs == [] then 0 else SumErrors(inputs[..|inputs| - 1]) + Error(inputs[|inputs| - 1])
  }

  /** The control value of a PID controller, in units of 1/65536 of a unit. */
  function Control(g: Gains, error: int, sum: int, change: int): int { g.kp * error + g.ki * sum + g.kd * change }

  function Previous(inputs: seq<(int, int)>, n: nat): int
    requires n < |inputs|
  {
    if n == 0 then 0 else Error(inputs[n - 1])
  }

  /** The exact control value for input n, from the whole history of errors. */
  function Exact(g: Gains, inputs: seq<(int, int)>, n: nat): int
    requires n < |inputs|
  {
    Control(g, Error(inputs[n]), SumErrors(inputs[..n + 1]), Error(inputs[n]) - Previous(inputs, n))
  }

  /** At most the exact value and less than three units below it. */
  predicate Tracks(output: int, exact: int) { output * Q16_ONE <= exact < (output + 3) * Q16_ONE }

  predicate AllTrack(g: Gains, inputs: seq<(int, int)>, outputs: seq<int>) {
    && |outputs| <= |inputs|
    && forall i :: 0 <= i < |outputs| ==> Tracks(outputs[i], Exact(g, inputs, i))
  }

  lemma OneMoreTracks(g: Gains, inputs: seq<(int, int)>, outputs: seq<int>, output: int)
    requires AllTrack(g, inputs, outputs) && |outputs| < |inputs| && Tracks(output, Exact(g, inputs, |outputs|))
    ensures AllTrack(g, inputs, outputs + [output])
  {
  }

  lemma {:induction false} RunRemembers(inputs: seq<(int, int)>)
    ensures Run(inputs).integral == SumErrors(inputs)
    ensures Run(inputs).previous == if inputs == [] then 0 else Error(inputs[|inputs| - 1])
    decreases |inputs|
  {
    if inputs != [] { RunRemembers(inputs[..|inputs| - 1]); }
  }

  lemma ThreeFloors(x: int, y: int, z: int, p: int, q: int, r: int)
    requires x * Q16_ONE <= p < (x + 1) * Q16_ONE
    requires y * Q16_ONE <= q < (y + 1) * Q16_ONE
    requires z * Q16_ONE <= r < (z + 1) * Q16_ONE
    ensures (x + y + z) * Q16_ONE <= p + q + r < (x + y + z + 3) * Q16_ONE
  {
  }

  /** What rounding can do to one output. */
  lemma OutputBound(g: Gains, m: Memory, error: int)
    requires StepFits(g, m, error)
    ensures Tracks(Output(g, m, error), Control(g, error, m.integral + error, error - m.previous))
  {
    var sum, change := m.integral + error, error - m.previous;
    MulBound(g.kp, error);
    MulBound(g.ki, sum);
    MulBound(g.kd, change);
    ThreeFloors(Q16Mul(g.kp, error), Q16Mul(g.ki, sum), Q16Mul(g.kd, change), g.kp * error, g.ki * sum, g.kd * change);
  }

  /** The memory a step starts from is the history it should be. */
  lemma HistoryIs(inputs: seq<(int, int)>, n: nat)
    requires n < |inputs|
    ensures var m := Run(inputs[..n]);
            && m.integral + Error(inputs[n]) == SumErrors(inputs[..n + 1])
            && m.previous == Previous(inputs, n)
  {
    RunRemembers(inputs[..n]);
    assert inputs[..n + 1][..n] == inputs[..n];
  }

  lemma StepTracks(g: Gains, inputs: seq<(int, int)>, n: nat, m: Memory, sum: int)
    requires n < |inputs| && m == Run(inputs[..n]) && sum == SumErrors(inputs[..n + 1])
    requires StepFits(g, m, Error(inputs[n]))
    ensures var error := Error(inputs[n]);
            Tracks(Output(g, m, error), Control(g, error, sum, error - Previous(inputs, n)))
  {
    HistoryIs(inputs, n);
    OutputBound(g, m, Error(inputs[n]));
  }

  /** Over any run in which nothing overflows, the integral is the sum of all errors,
      and every output is at most the exact control value and less than three units
      below it: rounding never accumulates. */
  lemma PidTracksExactValue(g: Gains, inputs: seq<(int, int)>, n: nat)
    requires RunFits(g, inputs) && n < |inputs|
    ensures Run(inputs).integral == SumErrors(inputs)
    ensures Tracks(Output(g, Run(inputs[..n]), Error(inputs[n])), Exact(g, inputs, n))
  {
    RunRemembers(inputs);
    StepTracks(g, inputs, n, Run(inputs[..n]), SumErrors(inputs[..n + 1]));
  }
}
