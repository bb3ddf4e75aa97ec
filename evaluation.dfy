/** Evaluation of a node graph: the per-node switch over the operation, the
    single forward pass that evaluates every function node, and what that pass
    computes (each function node holds the value of its operation applied to
    the final values of its operands). */
module Evaluation {
  import opened SNodes

  function Abs(x: int): nat
  {
    if x < 0 then -x else x
  }

  /** C integer division: the quotient is truncated toward zero, so its
      magnitude is the quotient of the magnitudes and its sign is negative
      exactly when the operands' signs differ. */
  function TruncDiv(a: int, b: int): (q: int)
    requires b != 0
    ensures Abs(q) == Abs(a) / Abs(b)
    ensures q != 0 ==> (q < 0 <==> (a < 0) != (b < 0))
  {
    var m := Abs(a) / Abs(b);
    DivNonNegative(Abs(a), Abs(b));
    if (a < 0) == (b < 0) then m else -m
  }

  lemma DivNonNegative(x: int, y: int)
    requires x >= 0 && y > 0
    ensures x / y >= 0
  {
  }

  lemma DivBounds(x: nat, y: nat)
    requires y > 0
    ensures (x / y) * y <= x < (x / y + 1) * y
  {
    assert x == (x / y) * y + x % y;
  }

  /** The truncated quotient is the largest magnitude whose multiple of b
      does not exceed a in magnitude. */
  lemma TruncDivBounds(a: int, b: int)
    requires b != 0
    ensures Abs(TruncDiv(a, b)) * Abs(b) <= Abs(a) < (Abs(TruncDiv(a, b)) + 1) * Abs(b)
  {
    DivBounds(Abs(a), Abs(b));
  }

  /** For non-negative operands truncation agrees with Dafny's division. */
  lemma TruncDivNonNegative(a: int, b: int)
    requires a >= 0 && b > 0
    ensures TruncDiv(a, b) == a / b
  {
  }

  /** The number of operand slots the evaluation switch reads for an
      operation: the three value-like operations return before reading any,
      and the sentinel NumOps falls through every case and reads all three. */
  function Reads(op: Op): (n: nat)
    ensures n <= 3
    ensures op != NumOps ==> n == NumParams(op)
  {
    if op == NumOps then 3 else NumParams(op)
  }

  /** The switch, as written and as corrected, reads no value but the slots
      Reads counts for the node's operation, and an input node's own entry:
      two value vectors that agree there give the same result. */
  lemma ReadsSuffice(node: SNode, i: int, v: seq<int>, w: seq<int>)
    requires 0 <= i < |v| == |w| && ReadsInRange(node, |v|)
    requires node.op == InputOp ==> v[i] == w[i]
    requires Reads(node.op) >= 1 ==> v[node.p0] == w[node.p0]
    requires Reads(node.op) >= 2 ==> v[node.p1] == w[node.p1]
    requires Reads(node.op) >= 3 ==> v[node.p2] == w[node.p2]
    ensures EvalNode(node, i, v) == EvalNode(node, i, w)
    ensures EvalNodeAsWritten(node, i, v) == EvalNodeAsWritten(node, i, w)
  {
    match node.op
    case NoOp | InputOp | ValOp =>
    case YesOp | NotOp =>
    case AddOp | SubOp | MultOp | DivOp | OrOp | NorOp | AndOp | NandOp | GreaterOp | LessOp | EqualOp =>
    case IfOp | NumOps =>
  }

  /** The operations a function node may carry: everything but the input
      marker, the literal and the sentinel. */
  predicate IsFunctionOp(op: Op)
  {
    op != InputOp && op != ValOp && op != NumOps
  }

  /** The operations whose result is a truth value. */
  predicate IsBooleanOp(op: Op)
  {
    op == YesOp || op == NotOp || op == OrOp || op == NorOp || op == AndOp
    || op == NandOp || op == GreaterOp || op == LessOp || op == EqualOp
  }

  /** Every slot the evaluation reads holds an index into a value vector of length len. */
  predicate ReadsInRange(node: SNode, len: int)
  {
    && (Reads(node.op) >= 1 ==> 0 <= node.p0 < len)
    && (Reads(node.op) >= 2 ==> 0 <= node.p1 < len)
    && (Reads(node.op) >= 3 ==> 0 <= node.p2 < len)
  }

  /** Evaluates node i, given the value vector (one entry per node, inputs
      included), with the evaluation rules the program evidently intends:
      Add sums its two operands and Not negates its operand. Every other
      operation is as written (see EvalNodeAsWritten). */
  function EvalNode(node: SNode, i: int, values: seq<int>): (r: int)
    requires 0 <= i < |values| && ReadsInRange(node, |values|)
    ensures IsBooleanOp(node.op) ==> r == 0 || r == 1
    ensures node.op == NoOp ==> r == 0
    ensures node.op == InputOp ==> r == values[i]
    ensures node.op == ValOp ==> r == node.p0
    ensures node.op == AddOp ==> r == values[node.p0] + values[node.p1]
    ensures node.op == NotOp ==> (r == 1 <==> values[node.p0] == 0)
    ensures node.op == DivOp ==>
      r == (if values[node.p0] == 0 then 0 else TruncDiv(values[node.p1], values[node.p0]))
    ensures node.op == IfOp ==>
      r == (if values[node.p0] != 0 then values[node.p1] else values[node.p2])
  {
    if node.op == NoOp then 0
    else if node.op == InputOp then values[i]
    else if node.op == ValOp then node.p0
    else
      // one-operand operations
      var val0 := values[node.p0];
      if node.op == YesOp then (if val0 != 0 then 1 else 0)
      else if node.op == NotOp then (if val0 != 0 then 0 else 1)
      else
        // two-operand operations
        var val1 := values[node.p1];
        if node.op == AddOp then val0 + val1
        else if node.op == SubOp then val1 - val0
        else if node.op == MultOp then val1 * val0
        else if node.op == DivOp then (if val0 != 0 then TruncDiv(val1, val0) else 0)
        else if node.op == OrOp then (if val0 != 0 || val1 != 0 then 1 else 0)
        else if node.op == NorOp then (if val0 != 0 || val1 != 0 then 0 else 1)
        else if node.op == AndOp then (if val0 != 0 && val1 != 0 then 1 else 0)
        else if node.op == NandOp then (if val0 != 0 && val1 != 0 then 0 else 1)
        else if node.op == GreaterOp then (if val0 > val1 then 1 else 0)
        else if node.op == LessOp then (if val0 < val1 then 1 else 0)
        else if node.op == EqualOp then (if val0 == val1 then 1 else 0)
        else
          // three-operand operations
          var val2 := values[node.p2];
          if node.op == IfOp then (if val0 != 0 then val1 else val2) else 0
  }

  /** The evaluation switch as the source writes it: Add doubles its first
      operand and Not computes the same as Yes. It agrees with EvalNode on
      every other operation. */
  function EvalNodeAsWritten(node: SNode, i: int, values: seq<int>): (r: int)
    requires 0 <= i < |values| && ReadsInRange(node, |values|)
    ensures node.op != AddOp && node.op != NotOp ==> r == EvalNode(node, i, values)
  {
    if node.op == AddOp then values[node.p0] + values[node.p0]
    else if node.op == NotOp then (if values[node.p0] != 0 then 1 else 0)
    else EvalNode(node, i, values)
  }

  /** Add is the sum of its operand values, whichever order the slots name
      them in, and Not is the complement of Yes. */
  lemma IntendedAddAndNot(a: int, b: int, i: int, values: seq<int>)
    requires 0 <= a < |values| && 0 <= b < |values| && 0 <= i < |values|
    ensures EvalNode(SNode(AddOp, a, b, 0), i, values) == values[a] + values[b]
    ensures EvalNode(SNode(AddOp, a, b, 0), i, values) == EvalNode(SNode(AddOp, b, a, 0), i, values)
    ensures EvalNode(SNode(NotOp, a, 0, 0), i, values) == 1 - EvalNode(SNode(YesOp, a, 0, 0), i, values)
  {
  }

  /** As written, Add doubles its first operand and ignores the second: with
      operand values 2 and 3 it yields 4 where the sum is 5. */
  lemma AddAsWritten()
    ensures EvalNodeAsWritten(SNode(AddOp, 0, 1, 0), 2, [2, 3, 0]) == 4
    ensures EvalNode(SNode(AddOp, 0, 1, 0), 2, [2, 3, 0]) == 5
  {
  }

  /** As written, Not computes the same as Yes: on an operand value of 0 it
      yields 0 where the complement is 1. */
  lemma NotAsWritten(a: int, i: int, values: seq<int>)
    requires 0 <= a < |values| && 0 <= i < |values|
    ensures EvalNodeAsWritten(SNode(NotOp, a, 0, 0), i, values) == EvalNodeAsWritten(SNode(YesOp, a, 0, 0), i, values)
    ensures values[a] == 0 ==> EvalNodeAsWritten(SNode(NotOp, a, 0, 0), i, values) == 0
    ensures values[a] == 0 ==> EvalNode(SNode(NotOp, a, 0, 0), i, values) == 1
  {
  }

  /** Every slot node n uses refers to an index below i. */
  predicate RefsBelow(n: SNode, i: int)
  {
    && (NumParams(n.op) >= 1 ==> 0 <= n.p0 < i)
    && (NumParams(n.op) >= 2 ==> 0 <= n.p1 < i)
    && (NumParams(n.op) >= 3 ==> 0 <= n.p2 < i)
  }

  /** RefsBelow, stated slot by slot. */
  lemma RefsBelowSlots(n: SNode, i: int)
    ensures RefsBelow(n, i) <==> forall s :: 0 <= s < NumParams(n.op) ==> 0 <= n.Param(s) < i
  {
    if forall s :: 0 <= s < NumParams(n.op) ==> 0 <= n.Param(s) < i {
      if NumParams(n.op) >= 1 { assert n.Param(0) == n.p0; }
      if NumParams(n.op) >= 2 { assert n.Param(1) == n.p1; }
      if NumParams(n.op) >= 3 { assert n.Param(2) == n.p2; }
    }
  }

  /** The graph invariant: indices [numInputs, |nodes|) are function nodes and
      every function node refers only to lower indices. */
  predicate Acyclic(nodes: seq<SNode>, numInputs: int)
  {
    && 0 <= numInputs <= |nodes|
    && forall i :: numInputs <= i < |nodes| ==> IsFunctionOp(nodes[i].op) && RefsBelow(nodes[i], i)
  }

  /** A function node's value depends only on the values of the slots it uses. */
  lemma EvalNodeLocal(node: SNode, i: int, v: seq<int>, w: seq<int>)
    requires IsFunctionOp(node.op) && RefsBelow(node, i)
    requires 0 <= i < |v| == |w|
    requires NumParams(node.op) >= 1 ==> v[node.p0] == w[node.p0]
    requires NumParams(node.op) >= 2 ==> v[node.p1] == w[node.p1]
    requires NumParams(node.op) >= 3 ==> v[node.p2] == w[node.p2]
    ensures EvalNode(node, i, v) == EvalNode(node, i, w)
  {
  }

  /** The value vector after the forward pass has handled indices [numInputs, k). */
  function EvalFrom(nodes: seq<SNode>, numInputs: int, values: seq<int>, k: int): (r: seq<int>)
    requires Acyclic(nodes, numInputs) && |values| == |nodes| && k <= |nodes|
    ensures |r| == |values|
    decreases k
  {
    if k <= numInputs then values
    else
      var w := EvalFrom(nodes, numInputs, values, k - 1);
      w[k - 1 := EvalNode(nodes[k - 1], k - 1, w)]
  }

  /** One more step of the forward pass evaluates node k over the vector so far. */
  lemma EvalFromStep(nodes: seq<SNode>, numInputs: int, values: seq<int>, k: int)
    requires Acyclic(nodes, numInputs) && |values| == |nodes| && numInputs <= k < |nodes|
    ensures ReadsInRange(nodes[k], |values|)
    ensures EvalFrom(nodes, numInputs, values, k + 1)
         == EvalFrom(nodes, numInputs, values, k)[k := EvalNode(nodes[k], k, EvalFrom(nodes, numInputs, values, k))]
  {
    assert RefsBelow(nodes[k], k);
  }

  /** The result of one full forward pass. */
  function FullEval(nodes: seq<SNode>, numInputs: int, values: seq<int>): seq<int>
    requires Acyclic(nodes, numInputs) && |values| == |nodes|
  {
    EvalFrom(nodes, numInputs, values, |nodes|)
  }

  /** v holds, at every function node, that node's value over v itself. */
  predicate Evaluated(nodes: seq<SNode>, numInputs: int, v: seq<int>)
  {
    && Acyclic(nodes, numInputs)
    && |v| == |nodes|
    && forall i :: numInputs <= i < |nodes| ==> v[i] == EvalNode(nodes[i], i, v)
  }

  /** Every index in [numInputs, k) holds its node's value over v. */
  predicate SettledBelow(nodes: seq<SNode>, numInputs: int, v: seq<int>, k: int)
    requires Acyclic(nodes, numInputs) && |v| == |nodes| && k <= |nodes|
  {
    forall j :: numInputs <= j < k ==> v[j] == EvalNode(nodes[j], j, v)
  }

  /** Evaluating node k - 1 over a vector settled below it settles it too,
      and leaves the lower nodes settled: none of them reads index k - 1. */
  lemma SettleStep(nodes: seq<SNode>, numInputs: int, w: seq<int>, k: int)
    requires Acyclic(nodes, numInputs) && |w| == |nodes| && numInputs < k <= |nodes|
    requires SettledBelow(nodes, numInputs, w, k - 1)
    ensures SettledBelow(nodes, numInputs, w[k - 1 := EvalNode(nodes[k - 1], k - 1, w)], k)
  {
    var e := EvalNode(nodes[k - 1], k - 1, w);
    forall j | numInputs <= j < k
      ensures w[k - 1 := e][j] == EvalNode(nodes[j], j, w[k - 1 := e])
    {
      SettleAt(nodes[j], j, w, k - 1, e);
    }
  }

  /** Writing index m with the value of node m keeps node j at or below m
      holding its node's value: node j does not read index m unless j is m. */
  lemma SettleAt(n: SNode, j: int, w: seq<int>, m: int, e: int)
    requires IsFunctionOp(n.op) && RefsBelow(n, j) && 0 <= j <= m < |w|
    requires j < m ==> w[j] == EvalNode(n, j, w)
    requires j == m ==> e == EvalNode(n, j, w)
    ensures w[m := e][j] == EvalNode(n, j, w[m := e])
  {
    EvalNodeLocal(n, j, w, w[m := e]);
  }

  /** The partial pass leaves every index outside [numInputs, k) alone and
      each index it has handled holds its node's value over the result. */
  lemma {:induction false} EvalFromSettles(nodes: seq<SNode>, numInputs: int, values: seq<int>, k: int)
    requires Acyclic(nodes, numInputs) && |values| == |nodes| && numInputs <= k <= |nodes|
    ensures forall j :: 0 <= j < |values| && (j < numInputs || j >= k) ==>
      EvalFrom(nodes, numInputs, values, k)[j] == values[j]
    ensures SettledBelow(nodes, numInputs, EvalFrom(nodes, numInputs, values, k), k)
    decreases k
  {
    if k > numInputs {
      EvalFromSettles(nodes, numInputs, values, k - 1);
      SettleStep(nodes, numInputs, EvalFrom(nodes, numInputs, values, k - 1), k);
    }
  }

  /** evalAll leaves the input slots alone and yields an evaluated vector. */
  lemma FullEvalEvaluates(nodes: seq<SNode>, numInputs: int, values: seq<int>)
    requires Acyclic(nodes, numInputs) && |values| == |nodes|
    ensures Evaluated(nodes, numInputs, FullEval(nodes, numInputs, values))
    ensures forall j :: 0 <= j < numInputs ==> FullEval(nodes, numInputs, values)[j] == values[j]
  {
    EvalFromSettles(nodes, numInputs, values, |nodes|);
  }

  /** Two evaluated vectors that agree on the input slots agree everywhere. */
  lemma EvaluatedUnique(nodes: seq<SNode>, numInputs: int, v: seq<int>, w: seq<int>)
    requires Evaluated(nodes, numInputs, v) && Evaluated(nodes, numInputs, w)
    requires forall j :: 0 <= j < numInputs ==> v[j] == w[j]
    ensures v == w
  {
    AgreeBelow(nodes, numInputs, v, w, |nodes|);
  }

  lemma {:induction false} AgreeBelow(nodes: seq<SNode>, numInputs: int, v: seq<int>, w: seq<int>, k: int)
    requires Evaluated(nodes, numInputs, v) && Evaluated(nodes, numInputs, w)
    requires forall j :: 0 <= j < numInputs ==> v[j] == w[j]
    requires 0 <= k <= |nodes|
    ensures forall j :: 0 <= j < k ==> v[j] == w[j]
    decreases k
  {
    if k > 0 {
      AgreeBelow(nodes, numInputs, v, w, k - 1);
      if k - 1 >= numInputs {
        var n := nodes[k - 1];
        assert RefsBelow(n, k - 1);
        EvalNodeLocal(n, k - 1, v, w);
      }
    }
  }

  /** Any evaluated vector with the given inputs is the result of evalAll on them. */
  lemma EvaluatedIsFullEval(nodes: seq<SNode>, numInputs: int, values: seq<int>, v: seq<int>)
    requires Evaluated(nodes, numInputs, v) && |values| == |nodes|
    requires forall j :: 0 <= j < numInputs ==> v[j] == values[j]
    ensures v == FullEval(nodes, numInputs, values)
  {
    FullEvalEvaluates(nodes, numInputs, values);
    EvaluatedUnique(nodes, numInputs, v, FullEval(nodes, numInputs, values));
  }

  /** A second full pass changes nothing. */
  lemma FullEvalIdempotent(nodes: seq<SNode>, numInputs: int, values: seq<int>)
    requires Acyclic(nodes, numInputs) && |values| == |nodes|
    ensures FullEval(nodes, numInputs, FullEval(nodes, numInputs, values)) == FullEval(nodes, numInputs, values)
  {
    var r := FullEval(nodes, numInputs, values);
    FullEvalEvaluates(nodes, numInputs, values);
    FullEvalEvaluates(nodes, numInputs, r);
    EvaluatedUnique(nodes, numInputs, r, FullEval(nodes, numInputs, r));
  }
}
