/** The hill-climbing driver: one value vector per test case, one total
    fitness per node, and the run statistics. Each generation after the
    first keeps the previous mutation only if the total score did not drop,
    mutates one node and re-evaluates only what the mutation affected. */
module Worker {
  import opened SNodes
  import opened Evaluation
  import opened Links
  import opened Engine
  import opened Problems

  datatype Option<T> = None | Some(value: T)

  /** The number of nodes the worker evolves. */
  const NodeCount := 100
  /** A run that has not hit the target ends after this many generations. */
  const MaxGenerations := 25000

  /** Node j's value on each case. */
  function Column(results: seq<seq<int>>, j: int): (col: seq<int>)
    requires 0 <= j && forall c :: 0 <= c < |results| ==> j < |results[c]|
    ensures |col| == |results|
    ensures forall c :: 0 <= c < |results| ==> col[c] == results[c][j]
  {
    seq(|results|, c requires 0 <= c < |results| => results[c][j])
  }

  /** One more case adds that case's fitness to a node's score. */
  lemma ColumnStep(p: Problem, results: seq<seq<int>>, c: int, j: int)
    requires 0 <= c < |results| <= |p.cases|
    requires 0 <= j && forall k :: 0 <= k < |results| ==> j < |results[k]|
    ensures NodeScore(p, Column(results[..c + 1], j))
         == NodeScore(p, Column(results[..c], j)) + Fitness(p, results[c][j], c)
  {
    assert Column(results[..c + 1], j)[..c] == Column(results[..c], j);
  }

  /** Scoring case c extends the running scores from the first c cases to
      the first c + 1. */
  lemma ScoresStep(p: Problem, start: seq<int>, rs: seq<seq<int>>, fit: seq<int>, out: seq<int>, fit': seq<int>, c: int)
    requires 0 <= c < |rs| <= |p.cases| && |start| == |fit| == |fit'| == NodeCount && |out| == NodeCount
    requires forall k :: 0 <= k < |rs| ==> |rs[k]| == NodeCount
    requires forall j :: 0 <= j < NodeCount ==> fit[j] == start[j] + NodeScore(p, Column(rs[..c], j))
    requires forall j :: 0 <= j < NodeCount ==> fit'[j] == fit[j] + Fitness(p, out[j], c)
    ensures forall j :: 0 <= j < NodeCount ==> fit'[j] == start[j] + NodeScore(p, Column(rs[c := out][..c + 1], j))
  {
    var rs' := rs[c := out];
    assert rs'[..c] == rs[..c];
    forall j | 0 <= j < NodeCount
      ensures NodeScore(p, Column(rs'[..c + 1], j)) == NodeScore(p, Column(rs[..c], j)) + Fitness(p, out[j], c)
    {
      ColumnStep(p, rs', c, j);
    }
  }

  /** A full evaluation leaves the input slots as they were. */
  lemma FullEvalInputs(nodes: seq<SNode>, numInputs: int, values: seq<int>)
    requires Acyclic(nodes, numInputs) && |values| == |nodes|
    ensures FullEval(nodes, numInputs, values)[..numInputs] == values[..numInputs]
  {
    FullEvalEvaluates(nodes, numInputs, values);
  }

  function Sum(s: seq<int>): int
  {
    if |s| == 0 then 0 else Sum(s[..|s| - 1]) + s[|s| - 1]
  }

  /** The largest entry: one of the entries, and no entry exceeds it. */
  function MaxOf(s: seq<int>): (m: int)
    requires |s| > 0
    ensures m in s
    ensures forall t :: 0 <= t < |s| ==> s[t] <= m
  {
    if |s| == 1 then s[0]
    else
      var m := MaxOf(s[..|s| - 1]);
      if s[|s| - 1] > m then s[|s| - 1] else m
  }

  /** The total of all node scores and the best single score. */
  method Totals(fitness: seq<int>) returns (total: int, best: int)
    requires |fitness| > 0
    ensures total == Sum(fitness)
    ensures best == MaxOf(fitness)
  {
    total := 0;
    best := fitness[0];
    var i := 0;
    while i < |fitness|
      invariant 0 <= i <= |fitness|
      invariant total == Sum(fitness[..i])
      invariant best == if i == 0 then fitness[0] else MaxOf(fitness[..i])
    {
      assert fitness[..i + 1][..i] == fitness[..i];
      total := total + fitness[i];
      if fitness[i] > best {
        best := fitness[i];
      }
      i := i + 1;
    }
    assert fitness[..|fitness|] == fitness;
  }

  /** Adds each node's fitness on case c to its running score. */
  method AddScores(p: Problem, fit: seq<int>, values: seq<int>, c: int) returns (r: seq<int>)
    requires 0 <= c < |p.cases| && |fit| <= |values|
    ensures |r| == |fit|
    ensures forall j :: 0 <= j < |fit| ==> r[j] == fit[j] + Fitness(p, values[j], c)
  {
    r := fit;
    var j := 0;
    while j < |r|
      invariant 0 <= j <= |r| == |fit|
      invariant forall t :: 0 <= t < j ==> r[t] == fit[t] + Fitness(p, values[t], c)
      invariant forall t :: j <= t < |r| ==> r[t] == fit[t]
    {
      r := r[j := r[j] + Fitness(p, values[j], c)];
      j := j + 1;
    }
  }

  /** The initial value vector of a case: its inputs, then 0 for every
      other node. */
  method InitialResults(inputs: seq<int>, numInputs: int, size: int) returns (row: seq<int>)
    requires 0 <= numInputs <= size && |inputs| == numInputs
    ensures |row| == size
    ensures row[..numInputs] == inputs
    ensures forall j :: numInputs <= j < size ==> row[j] == 0
  {
    row := [];
    var j := 0;
    while j < numInputs
      invariant 0 <= j <= numInputs && row == inputs[..j]
    {
      row := row + [inputs[j]];
      j := j + 1;
    }
    while j < size
      invariant numInputs <= j <= size && |row| == j
      invariant row[..numInputs] == inputs
      invariant forall t :: numInputs <= t < j ==> row[t] == 0
    {
      row := row + [0];
      j := j + 1;
    }
  }

  /** The initial value vectors of all cases of p. */
  method CaseResults(p: Problem, size: int) returns (rs: seq<seq<int>>)
    requires WellFormed(p) && p.numInputs <= size
    ensures |rs| == |p.cases|
    ensures forall c :: 0 <= c < |rs| ==>
      (&& |rs[c]| == size
       && rs[c][..p.numInputs] == p.cases[c].inputs
       && forall j :: p.numInputs <= j < size ==> rs[c][j] == 0)
  {
    rs := [];
    var i := 0;
    while i < |p.cases|
      invariant 0 <= i <= |p.cases| && |rs| == i
      invariant forall c :: 0 <= c < i ==>
        (&& |rs[c]| == size
         && rs[c][..p.numInputs] == p.cases[c].inputs
         && forall j :: p.numInputs <= j < size ==> rs[c][j] == 0)
    {
      var row := InitialResults(p.cases[i].inputs, p.numInputs, size);
      rs := rs + [row];
      i := i + 1;
    }
  }

  /** A fitness vector resized to n: existing scores kept, new ones 0. */
  function ResizedScores(s: seq<int>, n: nat): (r: seq<int>)
    ensures |r| == n
    ensures forall k :: 0 <= k < n ==> r[k] == if k < |s| then s[k] else 0
  {
    seq(n, k requires 0 <= k < n => if k < |s| then s[k] else 0)
  }

  /** node n is followed when tracing a program: it is not a value node and
      names x in one of its used slots. */
  predicate Uses(n: SNode, x: int)
  {
    !IsValue(n.op) && RefersTo(n, x)
  }

  /** Sets the mark of every operand node n names. */
  method MarkOperands(toCheck: array<bool>, n: SNode)
    requires forall s :: 0 <= s < NumParams(n.op) ==> 0 <= n.Param(s) < toCheck.Length
    modifies toCheck
    ensures forall x :: 0 <= x < toCheck.Length ==> (toCheck[x] <==> old(toCheck[x]) || RefersTo(n, x))
  {
    var k := 0;
    while k < NumParams(n.op)
      invariant 0 <= k <= NumParams(n.op)
      invariant forall x :: 0 <= x < toCheck.Length ==>
        (toCheck[x] <==> old(toCheck[x]) || exists s :: 0 <= s < k && n.Param(s) == x)
    {
      toCheck[n.Param(k)] := true;
      k := k + 1;
    }
  }

  /** Operands of followed nodes lie below them. */
  predicate Traceable(nodes: seq<SNode>, i: int)
  {
    && 0 <= i < |nodes|
    && forall j :: 0 <= j <= i && !IsValue(nodes[j].op) ==> RefsBelow(nodes[j], j)
  }

  /** Some node listed in ks uses x. */
  predicate UsedBy(nodes: seq<SNode>, ks: seq<int>, x: int)
  {
    exists k :: k in ks && 0 <= k < |nodes| && Uses(nodes[k], x)
  }

  lemma UsedByAppend(nodes: seq<SNode>, ks: seq<int>, j: int, x: int)
    requires 0 <= j < |nodes|
    ensures UsedBy(nodes, ks + [j], x) <==> UsedBy(nodes, ks, x) || Uses(nodes[j], x)
  {
    if UsedBy(nodes, ks + [j], x) && !Uses(nodes[j], x) {
      var k :| k in ks + [j] && 0 <= k < |nodes| && Uses(nodes[k], x);
      assert k in ks;
    }
    if UsedBy(nodes, ks, x) {
      var k :| k in ks && 0 <= k < |nodes| && Uses(nodes[k], x);
      assert k in ks + [j];
    }
  }

  lemma UsedBySameElements(nodes: seq<SNode>, a: seq<int>, b: seq<int>, x: int)
    requires forall y :: y in a <==> y in b
    ensures UsedBy(nodes, a, x) <==> UsedBy(nodes, b, x)
  {
  }

  /** ks is strictly descending. */
  predicate Descending(ks: seq<int>)
  {
    forall a, b :: 0 <= a < b < |ks| ==> ks[a] > ks[b]
  }

  /** Every entry of ks lies in (lo, hi]. */
  predicate Within(ks: seq<int>, lo: int, hi: int)
  {
    forall a :: 0 <= a < |ks| ==> lo < ks[a] <= hi
  }

  lemma {:induction false} DescendingAppend(ks: seq<int>, j: int, hi: int)
    requires Descending(ks) && Within(ks, j, hi) && j <= hi
    ensures Descending(ks + [j]) && Within(ks + [j], j - 1, hi)
  {
    var ks' := ks + [j];
    forall a, b | 0 <= a < b < |ks'| ensures ks'[a] > ks'[b]
    {
      if b < |ks| { assert ks'[a] == ks[a] && ks'[b] == ks[b]; }
      else { assert ks'[a] == ks[a] && ks'[b] == j; }
    }
    forall a | 0 <= a < |ks'| ensures j - 1 < ks'[a] <= hi
    {
      if a < |ks| { assert ks'[a] == ks[a]; }
    }
  }

  lemma WithinLower(ks: seq<int>, j: int, hi: int)
    requires Within(ks, j, hi)
    ensures Within(ks, j - 1, hi)
    ensures forall x :: x in ks ==> j < x <= hi
  {
  }

  /** Walks down from node i, collecting (in descending order) i and every
      node a collected node uses. */
  method TraceProgram(nodes: seq<SNode>, i: int) returns (desc: seq<int>)
    requires Traceable(nodes, i)
    ensures Descending(desc)
    ensures forall x :: x in desc <==> 0 <= x <= i && (x == i || UsedBy(nodes, desc, x))
  {
    var toCheck := new bool[i + 1](_ => false);
    toCheck[i] := true;
    desc := [];
    var j := i;
    while j >= 0
      invariant -1 <= j <= i
      invariant Descending(desc) && Within(desc, j, i)
      invariant forall x :: j < x <= i ==> (x in desc <==> toCheck[x])
      invariant forall x :: 0 <= x <= i ==> (toCheck[x] <==> x == i || UsedBy(nodes, desc, x))
    {
      if toCheck[j] {
        ghost var before := desc;
        WithinLower(desc, j, i);
        DescendingAppend(desc, j, i);
        desc := desc + [j];
        if !IsValue(nodes[j].op) {
          RefsBelowSlots(nodes[j], j);
          MarkOperands(toCheck, nodes[j]);
        }
        forall x | 0 <= x <= i
          ensures UsedBy(nodes, desc, x) <==> UsedBy(nodes, before, x) || Uses(nodes[j], x)
        {
          UsedByAppend(nodes, before, j, x);
        }
      } else {
        WithinLower(desc, j, i);
      }
      j := j - 1;
    }
    WithinLower(desc, j, i);
  }

  /** Numbers the entries of an ascending sequence 0 .. n-1. */
  method Renumber(indices: seq<int>) returns (remapping: map<int, int>)
    requires forall a, b :: 0 <= a < b < |indices| ==> indices[a] < indices[b]
    ensures forall x :: x in remapping <==> x in indices
    ensures forall t :: 0 <= t < |indices| ==> indices[t] in remapping && remapping[indices[t]] == t
  {
    remapping := map[];
    var t := 0;
    while t < |indices|
      invariant 0 <= t <= |indices|
      invariant forall x :: x in remapping <==> x in indices[..t]
      invariant forall u :: 0 <= u < t ==> indices[u] in remapping && remapping[indices[u]] == u
    {
      remapping := remapping[indices[t] := t];
      t := t + 1;
    }
    assert indices[..|indices|] == indices;
  }

  /** The nodes the program of node i is made of, ascending, and their
      renumbering 0 .. n-1: i itself and, recursively, every operand of a
      node that is neither an input nor a literal. */
  method ProgramIndices(nodes: seq<SNode>, i: int) returns (indices: seq<int>, remapping: map<int, int>)
    requires Traceable(nodes, i)
    ensures forall a, b :: 0 <= a < b < |indices| ==> indices[a] < indices[b]
    ensures forall x :: x in indices <==> 0 <= x <= i && (x == i || UsedBy(nodes, indices, x))
    ensures forall x :: x in remapping <==> x in indices
    ensures forall t :: 0 <= t < |indices| ==> indices[t] in remapping && remapping[indices[t]] == t
  {
    var desc := TraceProgram(nodes, i);
    indices := seq(|desc|, t requires 0 <= t < |desc| => desc[|desc| - 1 - t]);
    assert forall x :: x in indices <==> x in desc by {
      forall x | x in desc
        ensures x in indices
      {
        var t :| 0 <= t < |desc| && desc[t] == x;
        assert indices[|desc| - 1 - t] == x;
      }
    }
    forall x
      ensures UsedBy(nodes, indices, x) <==> UsedBy(nodes, desc, x)
    {
      UsedBySameElements(nodes, indices, desc, x);
    }
    remapping := Renumber(indices);
  }

  /** On the standard cases some node reaches the target score exactly when
      some node's values match every case. */
  lemma HitIffSolved(p: Problem, fitness: seq<int>, results: seq<seq<int>>)
    requires StandardCases(p) && |results| == |p.cases| && |fitness| == NodeCount
    requires forall c :: 0 <= c < |results| ==> |results[c]| == NodeCount
    requires forall j :: 0 <= j < NodeCount ==> fitness[j] == NodeScore(p, Column(results, j))
    ensures AnyReaches(p, fitness) <==> exists j :: 0 <= j < NodeCount && Matches(p, Column(results, j))
  {
    forall j | 0 <= j < NodeCount
      ensures ReachesTarget(p, fitness[j]) <==> Matches(p, Column(results, j))
    {
      HitMeansSolved(p, Column(results, j));
    }
  }

  /** The node a mutation with draw d picks: one of the non-input nodes. */
  function MutationIndex(numInputs: int, d: MutationDraw): (k: int)
    requires numInputs < NodeCount
    ensures numInputs <= k < NodeCount
  {
    numInputs + d.node % (NodeCount - numInputs)
  }

  /** The graph after restore() when it writes the saved node back. */
  function Restored(nodes: seq<SNode>, undo: bool, index: int, saved: SNode): seq<SNode>
  {
    if undo && 0 <= index < |nodes| then nodes[index := saved] else nodes
  }

  class SNGPWorker {
    var engine: EvalEngine
    var stats: SNodeStats
    var problem: Option<Problem>
    /** One value vector per test case, one entry per node. */
    var results: seq<seq<int>>
    /** Each node's total fitness over all cases. */
    var fitness: seq<int>
    /** The number of runs to complete. */
    var times: int
    var running: bool

    /** A problem is set, the engine is configured for it, and every value
        vector starts with its case's inputs. */
    ghost predicate Shaped()
      reads this, engine
    {
      && problem.Some?
      && var p := problem.value;
      && WellFormed(p) && 1 <= p.numInputs < NodeCount
      && engine.Valid()
      && engine.numInputs == p.numInputs && engine.size == NodeCount && engine.ops == p.ops
      && |results| == |p.cases| && |fitness| == NodeCount
      && (forall c :: 0 <= c < |results| ==> |results[c]| == NodeCount && results[c][..p.numInputs] == p.cases[c].inputs)
    }

    /** Shaped, between generations: no node is waiting for re-evaluation. */
    ghost predicate Configured()
      reads this, engine
    {
      Shaped() && engine.changed == []
    }

    /** The value vectors hold the full evaluation of the graph and the
        fitness vector scores them. */
    ghost predicate Scored()
      reads this, engine
    {
      && Configured()
      && (forall c :: 0 <= c < |results| ==> Evaluated(engine.nodes, engine.numInputs, results[c]))
      && forall j :: 0 <= j < NodeCount ==> fitness[j] == NodeScore(problem.value, Column(results, j))
    }

    /** Configured; once a generation has run the vectors are scored; one-step
        undo is available from the second generation. */
    ghost predicate Valid()
      reads this, engine, stats
    {
      && Configured()
      && 0 <= stats.generation && 0 <= stats.hits <= stats.runs
      && (stats.generation >= 1 ==> Scored())
      && (stats.generation == 1 ==> stats.avgScore == stats.lastAvgScore)
      && (stats.generation >= 2 ==> engine.UndoOk())
    }

    constructor ()
      ensures fresh(engine) && fresh(stats) && stats.AllZero() && engine.changed == []
      ensures problem == None && results == [] && fitness == [] && times == 0 && !running
    {
      engine := new EvalEngine();
      stats := new SNodeStats();
      problem := None;
      results, fitness := [], [];
      times := 0;
      running := false;
    }

    /** Configures the engine for problem p with 100 nodes, initialises it,
        and starts every case's value vector from the case's inputs. */
    method SetProblem(p: Problem, draws: seq<NodeDraw>)
      requires WellFormed(p) && 1 <= p.numInputs < NodeCount && |draws| >= NodeCount
      requires engine.changed == [] && stats.generation == 0 && 0 <= stats.hits <= stats.runs
      modifies this`problem, this`results, this`fitness, engine
      ensures Valid() && problem == Some(p)
      ensures engine.numInputs == p.numInputs && engine.size == NodeCount && engine.ops == p.ops
      ensures forall t :: p.numInputs <= t < NodeCount ==>
        engine.nodes[t] == Randomised(ResizedNodes(old(engine.nodes), NodeCount)[t], p.ops, t, draws[t])
      ensures |results| == |p.cases|
      ensures forall c :: 0 <= c < |results| ==>
        results[c][..p.numInputs] == p.cases[c].inputs && forall j :: p.numInputs <= j < NodeCount ==> results[c][j] == 0
      ensures fitness == ResizedScores(old(fitness), NodeCount)
    {
      var rs := CaseResults(p, NodeCount);
      problem := Some(p);
      engine.SetNumInputs(p.numInputs);
      engine.SetAvailableOps(p.ops);
      engine.SetSize(NodeCount);
      engine.Init(draws);
      engine.SetNumInputs(p.numInputs);
      fitness := ResizedScores(fitness, engine.GetSize());
      results := rs;
    }

    method SetNumTimesToRun(n: int)
      modifies this`times
      ensures times == n
    {
      times := n;
    }

    /** Clears the statistics and re-initialises the engine. */
    method Reset(draws: seq<NodeDraw>)
      requires Valid() && |draws| >= NodeCount
      modifies stats, engine`nodes, engine`links, engine`base
      ensures Valid() && stats.AllZero()
      ensures forall t :: engine.numInputs <= t < NodeCount ==>
        engine.nodes[t] == Randomised(old(engine.nodes)[t], engine.ops, t, draws[t])
    {
      stats.Reset();
      engine.Init(draws);
    }

    /** Zeroes every node's score. */
    method ResetFitness()
      modifies this`fitness
      ensures |fitness| == |old(fitness)|
      ensures forall j :: 0 <= j < |fitness| ==> fitness[j] == 0
    {
      var i := 0;
      while i < |fitness|
        invariant 0 <= i <= |fitness| == |old(fitness)|
        invariant forall t :: 0 <= t < i ==> fitness[t] == 0
      {
        fitness := fitness[i := 0];
        i := i + 1;
      }
    }

    /** Evaluates one case's value vector, in full or only the changed
        nodes; either way the result is the full evaluation. */
    method EvalCase(full: bool, row: seq<int>) returns (out: seq<int>)
      requires Acyclic(engine.nodes, engine.numInputs) && |row| == |engine.nodes|
      requires !full ==> engine.Valid() && Evaluated(engine.base, engine.numInputs, row)
      ensures out == FullEval(engine.nodes, engine.numInputs, row)
    {
      if full {
        out := engine.EvalAll(row);
      } else {
        out := engine.EvalChanged(row);
      }
    }

    /** Evaluates every case, fully or incrementally, adding each node's
        fitness on the case to its score. */
    method ScoreCases(full: bool, rows: seq<seq<int>>, start: seq<int>) returns (rs: seq<seq<int>>, fit: seq<int>)
      requires problem.Some? && |rows| == |problem.value.cases| && |start| == NodeCount
      requires Acyclic(engine.nodes, engine.numInputs) && |engine.nodes| == NodeCount
      requires forall c :: 0 <= c < |rows| ==> |rows[c]| == NodeCount
      requires !full ==> engine.Valid() && forall c :: 0 <= c < |rows| ==> Evaluated(engine.base, engine.numInputs, rows[c])
      ensures |rs| == |rows| && |fit| == NodeCount
      ensures forall c :: 0 <= c < |rs| ==> rs[c] == FullEval(engine.nodes, engine.numInputs, rows[c])
      ensures forall c :: 0 <= c < |rs| ==> |rs[c]| == NodeCount
      ensures forall j :: 0 <= j < NodeCount ==> fit[j] == start[j] + NodeScore(problem.value, Column(rs, j))
    {
      var p := problem.value;
      rs, fit := rows, start;
      var c := 0;
      while c < |rs|
        invariant 0 <= c <= |rs| == |rows| == |p.cases| && |fit| == NodeCount
        invariant forall k :: 0 <= k < |rs| ==> |rs[k]| == NodeCount
        invariant forall k :: 0 <= k < c ==> rs[k] == FullEval(engine.nodes, engine.numInputs, rows[k])
        invariant forall k :: c <= k < |rs| ==> rs[k] == rows[k]
        invariant forall j :: 0 <= j < NodeCount ==> fit[j] == start[j] + NodeScore(p, Column(rs[..c], j))
      {
        var out := EvalCase(full, rs[c]);
        ghost var prev, before := rs, fit;
        rs := rs[c := out];
        fit := AddScores(p, fit, out, c);
        ScoresStep(p, start, prev, before, out, fit, c);
        c := c + 1;
      }
      assert rs[..c] == rs;
    }

    /** Zeroes the scores, then evaluates and scores every case. */
    method ScoreAll(full: bool)
      requires problem.Some? && |results| == |problem.value.cases| && |fitness| == NodeCount
      requires Acyclic(engine.nodes, engine.numInputs) && |engine.nodes| == NodeCount
      requires forall c :: 0 <= c < |results| ==> |results[c]| == NodeCount
      requires !full ==> engine.Valid() && forall c :: 0 <= c < |results| ==> Evaluated(engine.base, engine.numInputs, results[c])
      modifies this`results, this`fitness
      ensures |results| == |old(results)| && |fitness| == NodeCount
      ensures forall c :: 0 <= c < |results| ==> results[c] == FullEval(engine.nodes, engine.numInputs, old(results[c]))
      ensures forall c :: 0 <= c < |results| ==> |results[c]| == NodeCount && Evaluated(engine.nodes, engine.numInputs, results[c])
      ensures forall c :: 0 <= c < |results| ==> results[c][..engine.numInputs] == old(results[c])[..engine.numInputs]
      ensures forall j :: 0 <= j < NodeCount ==> fitness[j] == NodeScore(problem.value, Column(results, j))
    {
      ResetFitness();
      results, fitness := ScoreCases(full, results, fitness);
      forall c | 0 <= c < |results|
        ensures Evaluated(engine.nodes, engine.numInputs, results[c])
        ensures results[c][..engine.numInputs] == old(results[c])[..engine.numInputs]
      {
        FullEvalEvaluates(engine.nodes, engine.numInputs, old(results[c]));
        FullEvalInputs(engine.nodes, engine.numInputs, old(results[c]));
      }
    }

    /** Generation 0: evaluates every case in full and records the totals
        as this run's first scores. */
    method FirstGeneration()
      requires Valid() && stats.generation == 0
      modifies this`results, this`fitness, stats
      ensures Valid() && stats.generation == 1
      ensures stats.hits == old(stats.hits) && stats.runs == old(stats.runs)
      ensures forall c :: 0 <= c < |results| ==> results[c] == FullEval(engine.nodes, engine.numInputs, old(results[c]))
      ensures stats.avgScore == Sum(fitness) && stats.bestIndividualScore == MaxOf(fitness)
      ensures stats.lastAvgScore == stats.avgScore == stats.bestScoreEver
      ensures stats.bestIndividualScoreEver == stats.bestIndividualScore
    {
      ScoreAll(true);
      var total, best := Totals(fitness);
      RecordFirst(total, best);
    }

    /** Records the first generation's totals as the current, previous and
        best scores of the run. */
    method RecordFirst(total: int, best: int)
      modifies stats
      ensures stats.lastAvgScore == total && stats.avgScore == total && stats.bestScoreEver == total
      ensures stats.bestIndividualScore == best && stats.bestIndividualScoreEver == best
      ensures stats.generation == old(stats.generation) + 1
      ensures stats.hits == old(stats.hits) && stats.runs == old(stats.runs)
    {
      stats.lastAvgScore := total;
      stats.avgScore := total;
      stats.bestScoreEver := total;
      stats.bestIndividualScore := best;
      stats.bestIndividualScoreEver := best;
      stats.generation := stats.generation + 1;
    }

    /** Undoes the last mutation when the total score dropped, restoring
        the previous total as the current one. */
    method UndoIfWorse()
      requires Configured()
      requires forall c :: 0 <= c < |results| ==> Evaluated(engine.base, engine.numInputs, results[c])
      requires stats.avgScore < stats.lastAvgScore ==> engine.UndoOk()
      modifies engine`nodes, engine`links, engine`changed, stats`avgScore
      ensures Shaped()
      ensures forall c :: 0 <= c < |results| ==> Evaluated(engine.base, engine.numInputs, results[c])
      ensures stats.avgScore == if old(stats.avgScore) < old(stats.lastAvgScore) then old(stats.lastAvgScore) else old(stats.avgScore)
      ensures engine.nodes == Restored(old(engine.nodes), old(stats.avgScore) < old(stats.lastAvgScore), engine.oldNodeIndex, engine.oldNode)
    {
      if stats.avgScore < stats.lastAvgScore {
        engine.Restore();
        stats.avgScore := stats.lastAvgScore;
      }
    }

    /** Undoes the last mutation when the total score dropped, then mutates
        one node. */
    method Evolve(d: MutationDraw)
      requires Configured()
      requires forall c :: 0 <= c < |results| ==> Evaluated(engine.base, engine.numInputs, results[c])
      requires stats.avgScore < stats.lastAvgScore ==> engine.UndoOk()
      modifies engine`nodes, engine`links, engine`changed, engine`oldNode, engine`oldNodeIndex, stats`avgScore
      ensures Shaped() && engine.UndoOk()
      ensures forall c :: 0 <= c < |results| ==> Evaluated(engine.base, engine.numInputs, results[c])
      ensures stats.avgScore == if old(stats.avgScore) < old(stats.lastAvgScore) then old(stats.lastAvgScore) else old(stats.avgScore)
      ensures var restored := Restored(old(engine.nodes), old(stats.avgScore) < old(stats.lastAvgScore), old(engine.oldNodeIndex), old(engine.oldNode));
        && engine.oldNodeIndex == MutationIndex(engine.numInputs, d)
        && engine.oldNode == restored[engine.oldNodeIndex]
        && engine.nodes == restored[engine.oldNodeIndex := Smutated(engine.oldNode, engine.oldNodeIndex, d)]
    {
      ghost var restored := Restored(engine.nodes, stats.avgScore < stats.lastAvgScore, engine.oldNodeIndex, engine.oldNode);
      UndoIfWorse();
      assert engine.nodes == restored;
      MutateEngine(d);
    }

    /** Mutates one node of the engine; the worker keeps its shape and the
        value vectors stay evaluated against the base graph. */
    method MutateEngine(d: MutationDraw)
      requires Shaped()
      requires forall c :: 0 <= c < |results| ==> Evaluated(engine.base, engine.numInputs, results[c])
      modifies engine`nodes, engine`links, engine`changed, engine`oldNode, engine`oldNodeIndex
      ensures Shaped() && engine.UndoOk()
      ensures forall c :: 0 <= c < |results| ==> Evaluated(engine.base, engine.numInputs, results[c])
      ensures engine.oldNodeIndex == MutationIndex(engine.numInputs, d)
      ensures engine.oldNode == old(engine.nodes)[engine.oldNodeIndex]
      ensures engine.nodes == old(engine.nodes)[engine.oldNodeIndex := Smutated(engine.oldNode, engine.oldNodeIndex, d)]
    {
      engine.Mutate(d);
      assert engine.numInputs == old(engine.numInputs) && engine.size == old(engine.size);
      assert engine.ops == old(engine.ops) && engine.base == old(engine.base);
      assert engine.Valid();
      assert engine.oldNodeIndex == MutationIndex(engine.numInputs, d);
    }

    /** Re-evaluates the changed nodes of every case, rescores every node and
        empties the changed set. */
    method Rescore()
      requires Shaped()
      requires forall c :: 0 <= c < |results| ==> Evaluated(engine.base, engine.numInputs, results[c])
      modifies this`results, this`fitness, engine`changed, engine`base
      ensures Scored()
      ensures old(engine.UndoOk()) ==> engine.UndoOk()
      ensures |results| == |old(results)|
      ensures forall c :: 0 <= c < |results| ==> results[c] == FullEval(engine.nodes, engine.numInputs, old(results[c]))
    {
      ScoreAll(false);
      engine.ClearChanged();
    }

    /** Records a later generation's totals: the previous total moves to
        lastAvgScore and the run maxima only grow. */
    method RecordNext(total: int, best: int)
      modifies stats
      ensures stats.lastAvgScore == old(stats.avgScore) && stats.avgScore == total
      ensures stats.bestScoreEver == if old(stats.bestScoreEver) < total then total else old(stats.bestScoreEver)
      ensures stats.bestIndividualScore == best
      ensures stats.bestIndividualScoreEver == if old(stats.bestIndividualScoreEver) < best then best else old(stats.bestIndividualScoreEver)
      ensures stats.generation == old(stats.generation) + 1
      ensures stats.hits == old(stats.hits) && stats.runs == old(stats.runs)
    {
      stats.lastAvgScore := stats.avgScore;
      stats.avgScore := total;
      if stats.bestScoreEver < total {
        stats.bestScoreEver := total;
      }
      stats.bestIndividualScore := best;
      if stats.bestIndividualScoreEver < best {
        stats.bestIndividualScoreEver := best;
      }
      stats.generation := stats.generation + 1;
    }

    /** The engine half of a later generation: undo on a score drop, mutate
        one node, then re-evaluate and rescore every case. */
    method Advance(d: MutationDraw)
      requires Valid() && stats.generation >= 1
      modifies this`results, this`fitness, engine`nodes, engine`links, engine`changed, engine`oldNode, engine`oldNodeIndex, engine`base, stats`avgScore
      ensures Scored() && engine.UndoOk()
      ensures stats.avgScore == if old(stats.avgScore) < old(stats.lastAvgScore) then old(stats.lastAvgScore) else old(stats.avgScore)
      ensures var restored := Restored(old(engine.nodes), old(stats.avgScore) < old(stats.lastAvgScore), old(engine.oldNodeIndex), old(engine.oldNode));
        && engine.oldNodeIndex == MutationIndex(engine.numInputs, d)
        && engine.oldNode == restored[engine.oldNodeIndex]
        && engine.nodes == restored[engine.oldNodeIndex := Smutated(engine.oldNode, engine.oldNodeIndex, d)]
      ensures |results| == |old(results)|
      ensures forall c :: 0 <= c < |results| ==> results[c] == FullEval(engine.nodes, engine.numInputs, old(results[c]))
    {
      assert engine.nodes == engine.base;
      Evolve(d);
      Rescore();
    }

    /** A later generation: undo on a score drop, mutate, rescore
        incrementally and update the statistics. */
    method NextGeneration(d: MutationDraw)
      requires Valid() && stats.generation >= 1
      modifies this`results, this`fitness, engine`nodes, engine`links, engine`changed, engine`oldNode, engine`oldNodeIndex, engine`base, stats
      ensures 1 <= engine.numInputs < NodeCount && |fitness| == NodeCount
      ensures var restored := Restored(old(engine.nodes), old(stats.avgScore) < old(stats.lastAvgScore), old(engine.oldNodeIndex), old(engine.oldNode));
        && engine.oldNodeIndex == MutationIndex(engine.numInputs, d)
        && engine.oldNode == restored[engine.oldNodeIndex]
        && engine.nodes == restored[engine.oldNodeIndex := Smutated(engine.oldNode, engine.oldNodeIndex, d)]
      ensures stats.lastAvgScore == (if old(stats.avgScore) < old(stats.lastAvgScore) then old(stats.lastAvgScore) else old(stats.avgScore))
      ensures stats.avgScore == Sum(fitness) && stats.bestIndividualScore == MaxOf(fitness)
      ensures stats.bestScoreEver == (if old(stats.bestScoreEver) < stats.avgScore then stats.avgScore else old(stats.bestScoreEver))
      ensures stats.bestIndividualScoreEver ==
        (if old(stats.bestIndividualScoreEver) < stats.bestIndividualScore then stats.bestIndividualScore else old(stats.bestIndividualScoreEver))
      ensures stats.generation == old(stats.generation) + 1
      ensures stats.hits == old(stats.hits) && stats.runs == old(stats.runs)
      ensures |results| == |old(results)|
      ensures forall c :: 0 <= c < |results| ==> results[c] == FullEval(engine.nodes, engine.numInputs, old(results[c]))
      ensures Valid()
    {
      Advance(d);
      Tally();
    }

    /** Totals the scores of a later generation and records them. */
    method Tally()
      requires Scored() && engine.UndoOk() && stats.generation >= 1 && 0 <= stats.hits <= stats.runs
      modifies stats
      ensures Valid()
      ensures stats.lastAvgScore == old(stats.avgScore)
      ensures stats.avgScore == Sum(fitness) && stats.bestIndividualScore == MaxOf(fitness)
      ensures stats.bestScoreEver == (if old(stats.bestScoreEver) < stats.avgScore then stats.avgScore else old(stats.bestScoreEver))
      ensures stats.bestIndividualScoreEver ==
        (if old(stats.bestIndividualScoreEver) < stats.bestIndividualScore then stats.bestIndividualScore else old(stats.bestIndividualScoreEver))
      ensures stats.generation == old(stats.generation) + 1
      ensures stats.hits == old(stats.hits) && stats.runs == old(stats.runs)
    {
      var total, best := Totals(fitness);
      RecordNext(total, best);
    }

    /** One hill-climbing step: generation 0 runs FirstGeneration, every
        later one NextGeneration, whose contracts give the detail. Either way
        the generation count advances, the value vectors are the full
        evaluation of the resulting graph, and the recorded totals are the
        sum and maximum of the new scores. */
    method RunGeneration(d: MutationDraw)
      requires Valid()
      modifies this`results, this`fitness, engine`nodes, engine`links, engine`changed, engine`oldNode, engine`oldNodeIndex, engine`base, stats
      ensures Valid() && Scored()
      ensures stats.generation == old(stats.generation) + 1
      ensures stats.hits == old(stats.hits) && stats.runs == old(stats.runs)
      ensures stats.avgScore == Sum(fitness) && stats.bestIndividualScore == MaxOf(fitness)
      ensures stats.bestScoreEver >= stats.avgScore && stats.bestIndividualScoreEver >= stats.bestIndividualScore
    {
      if stats.generation == 0 {
        FirstGeneration();
      } else {
        NextGeneration(d);
      }
    }

    /** HitIffSolved for the current scores. */
    lemma HitIffSolvedHere()
      requires Scored() && StandardCases(problem.value)
      ensures AnyReaches(problem.value, fitness) <==> exists j :: 0 <= j < NodeCount && Matches(problem.value, Column(results, j))
    {
      HitIffSolved(problem.value, fitness, results);
    }

    /** The end-of-run check after a generation. A run ends on a hit
        (counted in hits) or at the generation limit; a finished run is
        counted, and the search stops once the requested number of runs is
        reached or else starts a fresh run. */
    method EndOfGeneration(draws: seq<NodeDraw>)
      requires Valid() && stats.generation >= 1 && |draws| >= NodeCount
      modifies this`running, engine`nodes, engine`links, engine`base, stats`hits, stats`runs, stats`generation
      ensures Valid()
      ensures results == old(results) && fitness == old(fitness)
      ensures var hit := AnyReaches(problem.value, fitness);
        var done := hit || old(stats.generation) >= MaxGenerations;
        && stats.hits == old(stats.hits) + (if hit then 1 else 0)
        && stats.runs == old(stats.runs) + (if done then 1 else 0)
        && running == (if done && times <= stats.runs then false else old(running))
        && stats.generation == (if done && times > stats.runs then 0 else old(stats.generation))
    {
      var hit := HitTargetFitness(problem.value, fitness);
      var doneRun := CountRun(hit, stats.generation >= MaxGenerations);
      if doneRun {
        FinishOrRestart(draws);
      }
    }

    /** Counts a hit, and a finished run when there was a hit or the
        generation limit was reached. */
    method CountRun(hit: bool, atLimit: bool) returns (doneRun: bool)
      requires Valid()
      modifies stats`hits, stats`runs
      ensures Valid()
      ensures doneRun == (hit || atLimit)
      ensures stats.hits == old(stats.hits) + (if hit then 1 else 0)
      ensures stats.runs == old(stats.runs) + (if doneRun then 1 else 0)
    {
      doneRun := false;
      if hit {
        stats.hits := stats.hits + 1;
        doneRun := true;
      } else if atLimit {
        doneRun := true;
      }
      if doneRun {
        stats.runs := stats.runs + 1;
      }
    }

    /** After a finished run: stop once the requested number of runs is
        complete, otherwise re-initialise the engine and start generation 0. */
    method FinishOrRestart(draws: seq<NodeDraw>)
      requires Valid() && |draws| >= NodeCount
      modifies this`running, engine`nodes, engine`links, engine`base, stats`generation
      ensures Valid()
      ensures running == (if times <= stats.runs then false else old(running))
      ensures stats.generation == (if times <= stats.runs then old(stats.generation) else 0)
      ensures times > stats.runs ==>
        forall t :: engine.numInputs <= t < NodeCount ==>
          engine.nodes[t] == Randomised(old(engine.nodes)[t], engine.ops, t, draws[t])
    {
      if times <= stats.runs {
        running := false;
      } else {
        engine.Init(draws);
        stats.generation := 0;
      }
    }

    /** The run loop: steps until the requested number of runs is complete.
        Every run ends within MaxGenerations generations, so the loop ends. */
    method Run(mutations: nat -> MutationDraw, inits: nat -> seq<NodeDraw>)
      requires Valid() && running
      requires forall n :: |inits(n)| >= NodeCount
      modifies this`results, this`fitness, this`running, engine`nodes, engine`links, engine`changed, engine`oldNode, engine`oldNodeIndex, engine`base, stats
      ensures Valid() && !running && times <= stats.runs
    {
      var n := 0;
      while running
        invariant Valid()
        invariant !running ==> times <= stats.runs
        decreases running, (if times > stats.runs then times - stats.runs else 0),
          (if stats.generation < MaxGenerations then MaxGenerations - stats.generation else 0)
      {
        RunGeneration(mutations(n));
        EndOfGeneration(inits(n));
        n := n + 1;
      }
    }
  }
}
