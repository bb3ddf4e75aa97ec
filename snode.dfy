/** Nodes of a single-node GP program: the operation set, the node record with
    its three operand slots, and the per-run statistics record. */
module SNodes {

  /** The operations a node can perform; NumOps is the sentinel that counts them. */
  datatype Op =
    | NoOp | InputOp | ValOp
    | AddOp | SubOp | MultOp | DivOp
    | OrOp | NorOp | AndOp | NandOp
    | YesOp | NotOp
    | GreaterOp | LessOp | EqualOp
    | IfOp
    | NumOps

  /** A node: an operation and exactly three integer parameter slots. For a
      referencing operation the first NumParams(op) slots are node indices;
      for ValOp slot 0 is a literal. */
  datatype SNode = SNode(op: Op, p0: int, p1: int, p2: int)
  {
    function Param(s: nat): int
      requires s < 3
    {
      if s == 0 then p0 else if s == 1 then p1 else p2
    }

    /** The same node with slot s replaced by v. */
    function WithParam(s: nat, v: int): (r: SNode)
      requires s < 3
      ensures r.op == op && r.Param(s) == v
      ensures forall t :: 0 <= t < 3 && t != s ==> r.Param(t) == Param(t)
    {
      if s == 0 then this.(p0 := v) else if s == 1 then this.(p1 := v) else this.(p2 := v)
    }
  }

  /** A freshly constructed node. */
  function NewNode(): (n: SNode)
    ensures n.op == NoOp
    ensures forall s :: 0 <= s < 3 ==> n.Param(s) == 0
  {
    SNode(NoOp, 0, 0, 0)
  }

  /** The number of parameter slots an operation uses. */
  function NumParams(op: Op): (n: nat)
    ensures n <= 3
    ensures n == 0 <==> op == NoOp || op == InputOp || op == NumOps
    ensures n == 1 <==> op == ValOp || op == NotOp || op == YesOp
    ensures n == 3 <==> op == IfOp
  {
    match op
    case NumOps | NoOp | InputOp => 0
    case ValOp | NotOp | YesOp => 1
    case AddOp | SubOp | MultOp | DivOp | OrOp | NorOp | AndOp | NandOp
       | GreaterOp | LessOp | EqualOp => 2
    case IfOp => 3
  }

  /** True for the two operations whose node is a value rather than a computation.
      Value nodes use at most one slot, and only the literal uses one. */
  predicate IsValue(op: Op): (v: bool)
    ensures v ==> NumParams(op) == (if op == ValOp then 1 else 0)
  {
    op == InputOp || op == ValOp
  }

  /** The human readable name of an operation. */
  function OpAsString(op: Op): (name: string)
    ensures name == "MaxOps" <==> op == NumOps
    ensures |name| >= 2
  {
    match op
    case NoOp => "Nop"
    case InputOp => "Input"
    case ValOp => "Value"
    case AddOp => "Add"
    case SubOp => "Sub"
    case MultOp => "Mult"
    case DivOp => "Div"
    case OrOp => "Or"
    case NorOp => "Nor"
    case AndOp => "And"
    case NandOp => "Nand"
    case YesOp => "Yes"
    case NotOp => "Not"
    case GreaterOp => "Greater"
    case LessOp => "Less"
    case EqualOp => "Equal"
    case IfOp => "If"
    case NumOps => "MaxOps"
  }

  /** Distinct operations have distinct names. */
  lemma OpNamesDistinct(a: Op, b: Op)
    requires a != b
    ensures OpAsString(a) != OpAsString(b)
  {
  }

  /** Statistics of the search, updated once per generation. */
  class SNodeStats {
    /** Best total score during the run. */
    var bestScoreEver: int
    /** Total score of all nodes in the current generation. */
    var avgScore: int
    /** Total score of all nodes in the previous generation. */
    var lastAvgScore: int
    /** Best single-node score in the current generation. */
    var bestIndividualScore: int
    /** Best single-node score during the run. */
    var bestIndividualScoreEver: int
    var generation: int
    /** Runs that found a solution. */
    var hits: int
    /** Runs completed. */
    var runs: int

    ghost predicate AllZero()
      reads this
    {
      && bestScoreEver == 0 && avgScore == 0 && lastAvgScore == 0
      && bestIndividualScore == 0 && bestIndividualScoreEver == 0
      && generation == 0 && hits == 0 && runs == 0
    }

    constructor ()
      ensures AllZero()
    {
      bestScoreEver, avgScore, lastAvgScore := 0, 0, 0;
      bestIndividualScore, bestIndividualScoreEver := 0, 0;
      generation, hits, runs := 0, 0, 0;
    }

    /** Sets every field back to zero. */
    method Reset()
      modifies this
      ensures AllZero()
    {
      bestScoreEver := 0;
      avgScore := 0;
      lastAvgScore := 0;
      bestIndividualScore := 0;
      bestIndividualScoreEver := 0;
      generation := 0;
      hits := 0;
      runs := 0;
    }
  }
}
