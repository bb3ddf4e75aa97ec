/** The sample problems: each supplies its test cases (inputs and expected
    output), the operations a program may use, a per-case fitness and the
    score a node must reach to count as a solution. A problem's fields are
    filled once, by its constructor, and only read afterwards, so a problem
    is a value here. */
module Problems {
  import opened SNodes
  import opened Evaluation

  /** One fitness case: one integer per input slot and the expected output. */
  datatype TestCase = TestCase(inputs: seq<int>, output: int)

  datatype Kind = Multiplexer | EvenParity | SymbolicRegression

  datatype Problem = Problem(kind: Kind, numInputs: nat, cases: seq<TestCase>, ops: seq<Op>)

  /** Every case has one input per input slot, and the operations are
      function operations the engine can randomise over. */
  predicate WellFormed(p: Problem)
  {
    && |p.ops| > 0
    && (forall t :: 0 <= t < |p.ops| ==> IsFunctionOp(p.ops[t]))
    && forall c :: 0 <= c < |p.cases| ==> |p.cases[c].inputs| == p.numInputs
  }

  function Pow2(n: nat): (r: nat)
    ensures r >= 1
  {
    if n == 0 then 1 else 2 * Pow2(n - 1)
  }

  /** Bit b of i, counting from the least significant bit: whether
      (1 << b) & i is non-zero. */
  function Bit(i: nat, b: nat): (r: int)
    ensures r == 0 || r == 1
  {
    if b == 0 then i % 2 else Bit(i / 2, b - 1)
  }

  /** The n input bits of case i, most significant first. */
  function BitsOf(i: nat, n: nat): (r: seq<int>)
    ensures |r| == n
    ensures forall j :: 0 <= j < n ==> r[j] == 0 || r[j] == 1
  {
    seq(n, j requires 0 <= j < n => Bit(i, n - 1 - j))
  }

  /** The number a sequence of bits spells, most significant first. */
  function FromBits(s: seq<int>): int
  {
    if |s| == 0 then 0 else 2 * FromBits(s[..|s| - 1]) + s[|s| - 1]
  }

  /** Reading the input bits of case i back gives i: the cases cover every
      combination of inputs exactly once. */
  lemma {:induction false} BitsOfEncode(i: nat, n: nat)
    requires i < Pow2(n)
    ensures FromBits(BitsOf(i, n)) == i
  {
    if n > 0 {
      var s := BitsOf(i, n);
      forall j | 0 <= j < n - 1
        ensures s[j] == BitsOf(i / 2, n - 1)[j]
      {
        assert s[j] == Bit(i, n - 1 - j) == Bit(i / 2, n - 2 - j);
      }
      assert s[..n - 1] == BitsOf(i / 2, n - 1);
      assert s[n - 1] == Bit(i, 0) == i % 2;
      BitsOfEncode(i / 2, n - 1);
    }
  }

  /** Distinct case numbers give distinct inputs. */
  lemma BitsOfDistinct(i: nat, k: nat, n: nat)
    requires i < Pow2(n) && k < Pow2(n) && i != k
    ensures BitsOf(i, n) != BitsOf(k, n)
  {
    BitsOfEncode(i, n);
    BitsOfEncode(k, n);
  }

  /** The number of inputs set to 1. */
  function Ones(s: seq<int>): nat
  {
    if |s| == 0 then 0 else Ones(s[..|s| - 1]) + (if s[|s| - 1] != 0 then 1 else 0)
  }

  /** Case i of the 6-multiplexer: inputs 0 and 1 form an address and
      select one of the data inputs 2 to 5. */
  function MuxCase(i: nat): TestCase
  {
    var inputs := BitsOf(i, 6);
    // (in0 << 1) | in1 on inputs that are 0 or 1
    TestCase(inputs, inputs[2 * inputs[0] + inputs[1] + 2])
  }

  /** The expected output is the data input the two address bits name. */
  lemma MuxCaseSelects(i: nat)
    ensures var c := MuxCase(i);
      && |c.inputs| == 6
      && 0 <= FromBits(c.inputs[..2]) < 4
      && c.output == c.inputs[2 + FromBits(c.inputs[..2])]
  {
    var c := MuxCase(i);
    var a := c.inputs[..2];
    assert a[..1][..0] == [];
    assert FromBits(a[..1]) == a[0];
    assert FromBits(a) == 2 * c.inputs[0] + c.inputs[1];
  }

  /** Case i of n-input parity: the output is bitsSet & 1. */
  function ParityCase(i: nat, n: nat): TestCase
  {
    var inputs := BitsOf(i, n);
    TestCase(inputs, Ones(inputs) % 2)
  }

  /** Flipping one input bit changes the number of ones by exactly one. */
  lemma {:induction false} OnesFlip(s: seq<int>, j: int)
    requires 0 <= j < |s| && (s[j] == 0 || s[j] == 1)
    ensures Ones(s[j := 1 - s[j]]) == if s[j] == 0 then Ones(s) + 1 else Ones(s) - 1
  {
    var t := s[j := 1 - s[j]];
    if j < |s| - 1 {
      assert t[..|t| - 1] == s[..|s| - 1][j := 1 - s[j]];
      OnesFlip(s[..|s| - 1], j);
    } else {
      assert t[..|t| - 1] == s[..|s| - 1];
    }
  }

  /** Flipping any one input of a parity case flips its expected output. */
  lemma ParityFlip(i: nat, n: nat, j: int)
    requires 0 <= j < n
    ensures var c := ParityCase(i, n);
      Ones(c.inputs[j := 1 - c.inputs[j]]) % 2 == 1 - c.output
  {
    OnesFlip(ParityCase(i, n).inputs, j);
  }

  /** The target polynomial 4x^4 - 3x^3 + 2x^2 - x, built from the powers
      in the order the source forms them. */
  function Polynomial(x: int): int
  {
    var x2 := x * x;
    var x3 := x * x2;
    var x4 := x * x3;
    4 * x4 - 3 * x3 + 2 * x2 - x
  }

  /** Case k of the regression problem: the input x = k - 8, so that the
      cases run over x = -8 .. 7. */
  function RegressionCase(k: nat): TestCase
  {
    TestCase([k - 8], Polynomial(k - 8))
  }

  /** Every target value stays within 32-bit signed range: checked input by
      input over the sixteen x the cases use. */
  lemma {:induction false} PolynomialBounded(x: int)
    requires -8 <= x < 8
    ensures -0x8000_0000 <= Polynomial(x) < 0x8000_0000
  {
    if x < -4 {
      if x == -8 {} else if x == -7 {} else if x == -6 {} else { assert x == -5; }
    } else if x < 0 {
      if x == -4 {} else if x == -3 {} else if x == -2 {} else { assert x == -1; }
    } else if x < 4 {
      if x == 0 {} else if x == 1 {} else if x == 2 {} else { assert x == 3; }
    } else {
      if x == 4 {} else if x == 5 {} else if x == 6 {} else { assert x == 7; }
    }
  }

  /** Builds the inputs of case i (bit n-1-j of i in slot j) into a fresh
      buffer, counting the inputs that are set. */
  method CaseBits(i: nat, n: nat) returns (inputs: seq<int>, bitsSet: nat)
    ensures inputs == BitsOf(i, n)
    ensures bitsSet == Ones(inputs)
  {
    var buf := new int[n];
    bitsSet := 0;
    var j := 0;
    while j < n
      invariant 0 <= j <= n
      invariant forall t :: 0 <= t < j ==> buf[t] == Bit(i, n - 1 - t)
      invariant bitsSet == Ones(buf[..j])
    {
      buf[j] := Bit(i, n - 1 - j);
      assert buf[..j + 1][..j] == buf[..j];
      if buf[j] != 0 {
        bitsSet := bitsSet + 1;
      }
      j := j + 1;
    }
    inputs := buf[..];
    assert buf[..n] == inputs;
  }

  /** The 6-multiplexer: 64 cases, function set {AND, OR, NOT, IF}. */
  method NewMultiplexer() returns (p: Problem)
    ensures p.kind == Multiplexer && p.numInputs == 6 && p.ops == [AndOp, OrOp, NotOp, IfOp]
    ensures |p.cases| == 64 && forall i :: 0 <= i < 64 ==> p.cases[i] == MuxCase(i)
    ensures WellFormed(p)
  {
    var cases: seq<TestCase> := [];
    var i := 0;
    while i < 64
      invariant 0 <= i <= 64 && |cases| == i
      invariant forall t :: 0 <= t < i ==> cases[t] == MuxCase(t)
    {
      var inputs, _ := CaseBits(i, 6);
      cases := cases + [TestCase(inputs, inputs[2 * inputs[0] + inputs[1] + 2])];
      i := i + 1;
    }
    p := Problem(Multiplexer, 6, cases, [AndOp, OrOp, NotOp, IfOp]);
  }

  /** Parity over n inputs: 2^n cases, function set {AND, OR, NAND, NOR}. */
  method NewEvenParity(n: nat) returns (p: Problem)
    ensures p.kind == EvenParity && p.numInputs == n && p.ops == [AndOp, OrOp, NandOp, NorOp]
    ensures |p.cases| == Pow2(n) && forall i :: 0 <= i < Pow2(n) ==> p.cases[i] == ParityCase(i, n)
    ensures WellFormed(p)
  {
    var cases: seq<TestCase> := [];
    var i := 0;
    while i < Pow2(n)
      invariant 0 <= i <= Pow2(n) && |cases| == i
      invariant forall t :: 0 <= t < i ==> cases[t] == ParityCase(t, n)
    {
      var inputs, bitsSet := CaseBits(i, n);
      cases := cases + [TestCase(inputs, bitsSet % 2)];
      i := i + 1;
    }
    p := Problem(EvenParity, n, cases, [AndOp, OrOp, NandOp, NorOp]);
  }

  /** The regression problem: 16 cases over x = -8 .. 7, function set
      {ADD, SUB, MULT, DIV}. */
  method NewSymbolicRegression() returns (p: Problem)
    ensures p.kind == SymbolicRegression && p.numInputs == 1 && p.ops == [AddOp, SubOp, MultOp, DivOp]
    ensures |p.cases| == 16 && forall k :: 0 <= k < 16 ==> p.cases[k] == RegressionCase(k)
    ensures WellFormed(p)
  {
    var cases: seq<TestCase> := [];
    var i := -8;
    while i < 8
      invariant -8 <= i <= 8 && |cases| == i + 8
      invariant forall t :: 0 <= t < i + 8 ==> cases[t] == RegressionCase(t)
    {
      var x := i;
      var x2 := x * x;
      var x3 := x * x2;
      var x4 := x * x3;
      cases := cases + [TestCase([i], (4 * x4) - (3 * x3) + (2 * x2) - x)];
      i := i + 1;
    }
    p := Problem(SymbolicRegression, 1, cases, [AddOp, SubOp, MultOp, DivOp]);
  }

  /** The boolean problems' fitness: 1 for a match, 0 otherwise. */
  function MatchFitness(value: int, expected: int): (f: int)
    ensures f == 0 || f == 1
    ensures f == 1 <==> value == expected
  {
    if value == expected then 1 else 0
  }

  /** The regression problem's fitness: the difference to the target,
      negated when it is positive, so never positive. */
  function RegressionFitness(value: int, expected: int): (f: int)
    ensures f <= 0
    ensures f == 0 <==> value == expected
    ensures f + Abs(value - expected) == 0
  {
    var i := value - expected;
    if i > 0 then -i else i
  }

  /** The fitness of one node's value on one case, chosen by problem kind. */
  function Fitness(p: Problem, value: int, testCase: int): (f: int)
    requires 0 <= testCase < |p.cases|
    ensures p.kind != SymbolicRegression ==> (f == 0 || f == 1) && (f == 1 <==> value == p.cases[testCase].output)
    ensures p.kind == SymbolicRegression ==> f <= 0 && (f == 0 <==> value == p.cases[testCase].output)
    ensures p.kind == SymbolicRegression ==> f + Abs(value - p.cases[testCase].output) == 0
  {
    if p.kind == SymbolicRegression then RegressionFitness(value, p.cases[testCase].output)
    else MatchFitness(value, p.cases[testCase].output)
  }

  /** A node's score over the first |outs| cases, outs[c] being its value
      on case c. */
  function NodeScore(p: Problem, outs: seq<int>): int
    requires |outs| <= |p.cases|
  {
    if |outs| == 0 then 0
    else NodeScore(p, outs[..|outs| - 1]) + Fitness(p, outs[|outs| - 1], |outs| - 1)
  }

  /** The node's value equals the expected output on each of those cases. */
  predicate Matches(p: Problem, outs: seq<int>)
    requires |outs| <= |p.cases|
  {
    forall c :: 0 <= c < |outs| ==> outs[c] == p.cases[c].output
  }

  /** Boolean scores count matches, so they lie in [0, |outs|] and reach the
      top exactly on a perfect match; regression scores are never positive
      and are zero exactly on a perfect match. */
  lemma {:induction false} NodeScoreBounds(p: Problem, outs: seq<int>)
    requires |outs| <= |p.cases|
    ensures p.kind != SymbolicRegression ==> 0 <= NodeScore(p, outs) <= |outs|
    ensures p.kind != SymbolicRegression ==> (NodeScore(p, outs) == |outs| <==> Matches(p, outs))
    ensures p.kind == SymbolicRegression ==> NodeScore(p, outs) <= 0
    ensures p.kind == SymbolicRegression ==> (NodeScore(p, outs) == 0 <==> Matches(p, outs))
  {
    if |outs| > 0 {
      var prefix := outs[..|outs| - 1];
      NodeScoreBounds(p, prefix);
      assert Matches(p, outs) <==> Matches(p, prefix) && outs[|outs| - 1] == p.cases[|outs| - 1].output;
    }
  }

  /** The score a node must reach for the run to count as solved. */
  function Threshold(p: Problem): real
  {
    match p.kind
    case Multiplexer => 63.9
    case EvenParity => Pow2(p.numInputs) as real - 0.1
    case SymbolicRegression => -0.1
  }

  predicate ReachesTarget(p: Problem, score: int)
  {
    score as real >= Threshold(p)
  }

  /** Some node score reaches the problem's threshold. */
  predicate AnyReaches(p: Problem, values: seq<int>)
  {
    exists j :: 0 <= j < |values| && ReachesTarget(p, values[j])
  }

  /** Scans the node scores for one that reaches the problem's threshold. */
  method HitTargetFitness(p: Problem, values: seq<int>) returns (hit: bool)
    ensures hit == AnyReaches(p, values)
  {
    var i := 0;
    while i < |values|
      invariant 0 <= i <= |values|
      invariant forall j :: 0 <= j < i ==> !ReachesTarget(p, values[j])
    {
      if ReachesTarget(p, values[i]) {
        return true;
      }
      i := i + 1;
    }
    return false;
  }

  /** The case counts the constructors produce. */
  predicate StandardCases(p: Problem)
  {
    match p.kind
    case Multiplexer => |p.cases| == 64
    case EvenParity => |p.cases| == Pow2(p.numInputs)
    case SymbolicRegression => true
  }

  /** A node's total score reaches the threshold exactly when it computes
      the expected output on every case. */
  lemma HitMeansSolved(p: Problem, outs: seq<int>)
    requires StandardCases(p) && |outs| == |p.cases|
    ensures ReachesTarget(p, NodeScore(p, outs)) <==> Matches(p, outs)
  {
    NodeScoreBounds(p, outs);
  }
}
