/** The single-node evaluation engine: a graph of nodes in which every
    function node refers only to lower indices, its dependents index, the
    ordered set of nodes to re-evaluate, and a one-step undo of the last
    mutation. One class models both SEvalEngine and its twin SNodeEval, whose
    logic is the same. */
module Engine {
  import opened SNodes
  import opened SortedArrays
  import opened Evaluation
  import opened Links

  /** The random numbers one randomise(i) consumes: the operation draw and
      one draw per operand slot (a literal takes the first slot draw). */
  datatype NodeDraw = NodeDraw(op: nat, p0: nat, p1: nat, p2: nat)
  {
    function Slot(j: nat): nat
      requires j < 3
    {
      if j == 0 then p0 else if j == 1 then p1 else p2
    }
  }

  /** The random numbers one mutate() consumes: the node index draw, then the
      slot draw (a literal takes this one), then the new operand draw. */
  datatype MutationDraw = MutationDraw(node: nat, slot: nat, link: nat)

  /** a and b have the same operation and differ in at most one used slot. */
  predicate AtMostOneSlotApart(a: SNode, b: SNode)
  {
    a == b || exists s :: 0 <= s < NumParams(a.op) && b == a.WithParam(s, b.Param(s))
  }

  /** node with its first j slots set from the draws, each reduced modulo i. */
  function FillSlots(node: SNode, i: int, d: NodeDraw, j: nat): (r: SNode)
    requires i > 0 && j <= 3
    ensures r.op == node.op
    ensures forall t :: 0 <= t < j ==> r.Param(t) == d.Slot(t) % i
    ensures forall t :: j <= t < 3 ==> r.Param(t) == node.Param(t)
  {
    if j == 0 then node else FillSlots(node, i, d, j - 1).WithParam(j - 1, d.Slot(j - 1) % i)
  }

  /** The node randomise(i) generates in place of node: an operation from
      ops, then a literal in [0, 1000] with zeroed other slots for a value
      node, or fresh operands below i for any other node; the first two
      nodes get all-zero slots. */
  function Randomised(node: SNode, ops: seq<Op>, i: int, d: NodeDraw): (r: SNode)
    requires |ops| > 0
    ensures r.op == ops[d.op % |ops|]
    ensures i > 1 && r.op == ValOp ==> 0 <= r.p0 <= 1000 && r.p1 == 0 && r.p2 == 0
    ensures i > 1 && r.op != ValOp ==> RefsBelow(r, i)
    ensures i > 1 && r.op != ValOp ==> forall t :: NumParams(r.op) <= t < 3 ==> r.Param(t) == node.Param(t)
    ensures i <= 1 ==> r.p0 == 0 && r.p1 == 0 && r.p2 == 0
  {
    var op := ops[d.op % |ops|];
    if i > 1 then
      if op == ValOp then SNode(ValOp, d.p0 % 1001, 0, 0)
      else
        var r := FillSlots(node.(op := op), i, d, NumParams(op));
        RefsBelowSlots(r, i);
        r
    else SNode(op, 0, 0, 0)
  }

  /** The node smut(i) leaves in place of node: the operation is kept and at
      most one used slot changes; a value node gets a new literal in
      [0, 1000], any other node gets one operand rewired below i, and the
      first two nodes and nodes without operands are left alone. */
  function Smutated(node: SNode, i: int, d: MutationDraw): (r: SNode)
    ensures r.op == node.op
    ensures AtMostOneSlotApart(node, r)
    ensures i <= 1 || NumParams(node.op) == 0 ==> r == node
    ensures i > 1 && node.op == ValOp ==> 0 <= r.p0 <= 1000
    ensures i > 1 && node.op != ValOp && RefsBelow(node, i) ==> RefsBelow(r, i)
  {
    if i > 1 then
      if node.op == ValOp then
        var r := node.(p0 := d.slot % 1001);
        assert r == node.WithParam(0, r.Param(0));
        r
      else if NumParams(node.op) > 0 then
        var s := d.slot % NumParams(node.op);
        var r := node.WithParam(s, d.link % i);
        assert r == node.WithParam(s, r.Param(s));
        RefsBelowSlots(node, i);
        RefsBelowSlots(r, i);
        r
      else node
    else node
  }

  /** s resized to n entries the way std::vector::resize does it: cut, or
      padded with default nodes. */
  function ResizedNodes(s: seq<SNode>, n: nat): (r: seq<SNode>)
    ensures |r| == n
    ensures forall k :: 0 <= k < n ==> r[k] == if k < |s| then s[k] else NewNode()
  {
    if |s| >= n then s[..n] else s + seq(n - |s|, _ => NewNode())
  }

  /** links resized to n entries, padded with empty lists. */
  function ResizedLinks(s: seq<multiset<int>>, n: nat): (r: seq<multiset<int>>)
    ensures |r| == n
    ensures forall k :: 0 <= k < n ==> r[k] == if k < |s| then s[k] else multiset{}
  {
    if |s| >= n then s[..n] else s + seq(n - |s|, _ => multiset{})
  }

  /** A rewiring switch only ever adds the rewired node to a list. */
  lemma SwitchedAddsOnly(links: seq<multiset<int>>, numInputs: nat, i: int, a: int, b: int, c: int, d: int)
    requires a < |links| && b < |links| && 0 <= c < |links|
    requires d in SwitchedLinks(links, numInputs, i, a, b)[c]
    ensures d in links[c] || d == i
  {
  }

  /** When the changed set is closed under dependents, a node outside it has
      no operand inside it. */
  lemma OperandsOutside(nodes: seq<SNode>, links: seq<multiset<int>>, numInputs: nat, changed: seq<int>, k: int)
    requires Acyclic(nodes, numInputs) && LinksMatch(links, nodes, numInputs)
    requires forall c :: c in changed ==> numInputs <= c < |nodes|
    requires forall c, d :: c in changed && 0 <= c < |links| && d in links[c] ==> d in changed
    requires numInputs <= k < |nodes| && k !in changed
    ensures NumParams(nodes[k].op) >= 1 ==> nodes[k].p0 !in changed
    ensures NumParams(nodes[k].op) >= 2 ==> nodes[k].p1 !in changed
    ensures NumParams(nodes[k].op) >= 3 ==> nodes[k].p2 !in changed
  {
    forall s | 0 <= s < NumParams(nodes[k].op)
      ensures nodes[k].Param(s) !in changed
    {
      var p := nodes[k].Param(s);
      if p in changed {
        assert RefersTo(nodes[k], p);
        ReferrerPresent(nodes, numInputs, p, k);
      }
    }
    if NumParams(nodes[k].op) >= 1 { assert nodes[k].Param(0) == nodes[k].p0; }
    if NumParams(nodes[k].op) >= 2 { assert nodes[k].Param(1) == nodes[k].p1; }
    if NumParams(nodes[k].op) >= 3 { assert nodes[k].Param(2) == nodes[k].p2; }
  }

  /** Writing a function node over lower indices keeps a graph acyclic. */
  lemma AcyclicUpdate(nodes: seq<SNode>, numInputs: int, i: int, n: SNode)
    requires Acyclic(nodes, numInputs) && numInputs <= i < |nodes|
    requires IsFunctionOp(n.op) && RefsBelow(n, i)
    ensures Acyclic(nodes[i := n], numInputs)
  {
  }

  class EvalEngine {
    var numInputs: int
    var size: int
    var nodes: seq<SNode>
    /** The operations randomise() picks from. */
    var ops: seq<Op>
    /** For each node, the nodes that refer back to it, once per referring slot. */
    var links: seq<multiset<int>>
    /** The nodes changed by mutate() and restore() since clearChanged(),
        with every node depending on one of them; ascending, no duplicates. */
    var changed: seq<int>
    /** The node as it was before the last smut(), and its index. */
    var oldNode: SNode
    var oldNodeIndex: int
    /** The graph the stored value vectors were last fully evaluated against. */
    ghost var base: seq<SNode>

    ghost predicate Shape()
      reads this
    {
      && 1 <= numInputs <= size
      && |nodes| == size && |links| == size && |base| == size
      && Acyclic(nodes, numInputs) && Acyclic(base, numInputs)
    }

    ghost predicate ChangedOk()
      reads this
    {
      StrictlySorted(changed) && forall c :: c in changed ==> numInputs <= c < size
    }

    ghost predicate ChangedClosed()
      reads this
    {
      forall c, d :: c in changed && 0 <= c < |links| && d in links[c] ==> d in changed
    }

    ghost predicate BaseAgrees()
      reads this
    {
      |nodes| == |base| && forall k :: 0 <= k < |nodes| && k !in changed ==> nodes[k] == base[k]
    }

    /** The engine invariant after init(): an acyclic graph, an exact
        dependents index, and a changed set that is ordered, closed under
        dependents and covers every node that differs from the last fully
        evaluated graph. */
    ghost predicate Valid()
      reads this
    {
      && Shape()
      && LinksMatch(links, nodes, numInputs)
      && ChangedOk()
      && ChangedClosed()
      && BaseAgrees()
    }

    /** The saved node can be written back: it is a function node over lower
        indices, at a non-input index, one slot apart from the node there now. */
    ghost predicate UndoOk()
      reads this
    {
      && 0 <= numInputs <= oldNodeIndex < |nodes|
      && IsFunctionOp(oldNode.op) && RefsBelow(oldNode, oldNodeIndex)
      && AtMostOneSlotApart(oldNode, nodes[oldNodeIndex])
    }

    constructor ()
      ensures numInputs == 0 && size == 0 && oldNodeIndex == 0 && oldNode == NewNode()
      ensures nodes == [] && ops == [] && links == [] && changed == []
    {
      numInputs, size, oldNodeIndex := 0, 0, 0;
      nodes, ops, links, changed := [], [], [], [];
      oldNode := NewNode();
      base := [];
    }

    method SetSize(n: int)
      modifies this`size
      ensures GetSize() == n
    {
      size := n;
    }

    /** The number of nodes: under the engine's shape invariant, the length
        of the graph and of the dependents index. */
    function GetSize(): (n: int)
      reads this
      ensures Shape() ==> n == |nodes| == |links|
    {
      size
    }

    method SetNumInputs(n: int)
      modifies this`numInputs
      ensures numInputs == n
    {
      numInputs := n;
    }

    method SetAvailableOps(o: seq<Op>)
      modifies this`ops
      ensures ops == o
    {
      ops := o;
    }

    /** Evaluates every function node in index order. */
    method EvalAll(values: seq<int>) returns (out: seq<int>)
      requires Acyclic(nodes, numInputs) && |values| == |nodes|
      ensures out == FullEval(nodes, numInputs, values)
      ensures Evaluated(nodes, numInputs, out)
      ensures forall j :: 0 <= j < numInputs ==> out[j] == values[j]
    {
      out := values;
      var i := numInputs;
      while i < |nodes|
        invariant numInputs <= i <= |nodes|
        invariant out == EvalFrom(nodes, numInputs, values, i)
      {
        EvalFromStep(nodes, numInputs, values, i);
        out := out[i := EvalNode(nodes[i], i, out)];
        i := i + 1;
      }
      FullEvalEvaluates(nodes, numInputs, values);
    }

    /** Re-evaluates only the changed nodes, in ascending order. Given values
        fully evaluated against the graph before the changes, the result is
        the full evaluation of the current graph. */
    method EvalChanged(values: seq<int>) returns (out: seq<int>)
      requires Valid() && Evaluated(base, numInputs, values)
      ensures out == FullEval(nodes, numInputs, values)
      ensures forall j :: 0 <= j < |values| && j !in changed ==> out[j] == values[j]
    {
      var order := changed;
      out := values;
      var t := 0;
      while t < |order|
        invariant 0 <= t <= |order|
        invariant SettledUpTo(nodes, order, values, out, t)
      {
        EvalStep(nodes, numInputs, order, values, out, t);
        var i := order[t];
        out := out[i := EvalNode(nodes[i], i, out)];
        t := t + 1;
      }
      ChangedSettle(nodes, links, numInputs, order, base, values, out);
      EvaluatedIsFullEval(nodes, numInputs, values, out);
    }

    /** After the first t changed nodes are re-evaluated: only they differ
        from values, and each holds the value its node computes from out. */
    static ghost predicate SettledUpTo(nodes: seq<SNode>, order: seq<int>, values: seq<int>, out: seq<int>, t: int)
    {
      && 0 <= t <= |order|
      && |out| == |values|
      && (forall j :: 0 <= j < |out| && j !in order ==> out[j] == values[j])
      && (forall u :: 0 <= u < t ==>
            (&& 0 <= order[u] < |nodes|
             && 0 <= order[u] < |out|
             && ReadsInRange(nodes[order[u]], |out|)
             && out[order[u]] == EvalNode(nodes[order[u]], order[u], out)))
    }

    /** Re-evaluating the next changed node keeps the earlier ones settled:
        they lie below it and only read lower nodes. */
    static lemma EvalStep(nodes: seq<SNode>, numInputs: int, order: seq<int>, values: seq<int>, out: seq<int>, t: int)
      requires Acyclic(nodes, numInputs) && |values| == |nodes|
      requires StrictlySorted(order) && forall c :: c in order ==> numInputs <= c < |nodes|
      requires SettledUpTo(nodes, order, values, out, t) && t < |order|
      ensures 0 <= order[t] < |nodes| == |out| && ReadsInRange(nodes[order[t]], |out|)
      ensures SettledUpTo(nodes, order, values, out[order[t] := EvalNode(nodes[order[t]], order[t], out)], t + 1)
    {
      var i := order[t];
      assert i in order;
      var out' := out[i := EvalNode(nodes[i], i, out)];
      forall u | 0 <= u <= t
        ensures out'[order[u]] == EvalNode(nodes[order[u]], order[u], out')
      {
        var c := order[u];
        assert c in order;
        RefsBelowSlots(nodes[c], c);
        EvalNodeLocal(nodes[c], c, out, out');
      }
    }

    /** Once every changed node is re-evaluated, so is every node: one outside
        the changed set has its operands outside it too, and kept its node
        and its value. */
    static lemma ChangedSettle(nodes: seq<SNode>, links: seq<multiset<int>>, numInputs: nat, order: seq<int>,
                               base: seq<SNode>, values: seq<int>, out: seq<int>)
      requires Acyclic(nodes, numInputs) && LinksMatch(links, nodes, numInputs)
      requires forall c :: c in order ==> numInputs <= c < |nodes|
      requires forall c, d :: c in order && 0 <= c < |links| && d in links[c] ==> d in order
      requires |nodes| == |base| && forall k :: 0 <= k < |nodes| && k !in order ==> nodes[k] == base[k]
      requires Evaluated(base, numInputs, values)
      requires SettledUpTo(nodes, order, values, out, |order|)
      ensures Evaluated(nodes, numInputs, out)
    {
      forall j | numInputs <= j < |nodes|
        ensures out[j] == EvalNode(nodes[j], j, out)
      {
        if j in order {
          var u :| 0 <= u < |order| && order[u] == j;
        } else {
          OperandsOutside(nodes, links, numInputs, order, j);
          EvalNodeLocal(nodes[j], j, values, out);
        }
      }
    }

    /** Empties the changed set; the stored values now match the graph. */
    method ClearChanged()
      requires Valid()
      modifies this`changed, this`base
      ensures Valid() && changed == [] && base == nodes
    {
      changed := [];
      base := nodes;
    }

    /** Moves one occurrence of node i from the list of oldLink to the list
        of newLink, ignoring input lists. */
    method SwitchLink(i: int, oldLink: int, newLink: int)
      requires 0 <= numInputs && oldLink < |links| && newLink < |links|
      modifies this`links
      ensures links == SwitchedLinks(old(links), numInputs, i, oldLink, newLink)
    {
      if oldLink == newLink {
        return;
      }
      if oldLink >= numInputs {
        links := links[oldLink := links[oldLink] - multiset{i}];
      }
      if newLink >= numInputs {
        links := links[newLink := links[newLink] + multiset{i}];
      }
    }

    /** Adds index to the changed set and, when it was not there yet, marks
        every node that depends on it. */
    method MarkChanged(index: int)
      requires 1 <= numInputs <= index < size == |links|
      requires DependentsAbove(links, numInputs) && ChangedOk()
      modifies this`changed
      ensures ChangedOk() && index in changed
      ensures forall c :: c in old(changed) ==> c in changed
      ensures forall c :: c in changed && c !in old(changed) ==> index <= c && ClosedIn(links, c, changed)
      ensures forall c :: c in changed && c !in old(changed) ==> Reaches(links, index, c)
      decreases size - index
    {
      if index in changed {
        return;
      }
      InsertSorted(changed, index);
      changed := Insert(changed, index);
      var rest := links[index];
      while rest != multiset{}
        invariant ChangedOk() && index in changed
        invariant forall c :: c in old(changed) ==> c in changed
        invariant forall c :: c in changed && c !in old(changed) ==> index <= c
        invariant forall c :: c in changed && c !in old(changed) && c != index ==> ClosedIn(links, c, changed)
        invariant forall c :: c in changed && c !in old(changed) ==> Reaches(links, index, c)
        invariant rest <= links[index]
        invariant forall d :: d in links[index] && d !in rest ==> d in changed
        decreases |rest|
      {
        NonEmptyHasElement(rest);
        var d :| d in rest;
        assert index < d < size;
        ghost var prev := changed;
        MarkChanged(d);
        forall c | c in changed && c !in old(changed) && c != index
          ensures ClosedIn(links, c, changed)
        {
          if c in prev {
            ClosedGrows(links, c, prev, changed);
          }
        }
        forall c | c in changed && c !in prev
          ensures Reaches(links, index, c)
        {
          assert d in links[index] && index < d < |links| && Reaches(links, d, c);
        }
        rest := rest - multiset{d};
      }
    }

    /** Every dependent of c is in ch. */
    static ghost predicate ClosedIn(links: seq<multiset<int>>, c: int, ch: seq<int>)
    {
      0 <= c < |links| ==> forall d :: d in links[c] ==> d in ch
    }

    /** c is a, or a dependent of a node that a reaches: a path from a to c
        through the dependents lists, each step to a higher index. */
    static ghost predicate Reaches(links: seq<multiset<int>>, a: int, c: int)
      decreases |links| - a
    {
      a == c || (0 <= a < |links| && exists d :: d in links[a] && a < d < |links| && Reaches(links, d, c))
    }

    /** Node i is in the changed set, and every node the set holds beyond
        before is reachable from i through the dependents lists. */
    ghost predicate MarkedFrom(i: int, before: seq<int>)
      reads this`changed, this`links
    {
      i in changed && forall c :: c in changed && c !in before ==> Reaches(links, i, c)
    }

    static lemma ClosedGrows(links: seq<multiset<int>>, c: int, ch: seq<int>, ch': seq<int>)
      requires ClosedIn(links, c, ch) && forall x :: x in ch ==> x in ch'
      ensures ClosedIn(links, c, ch')
    {
    }

    /** Adds to start, for every function node i and every slot of it that
        names k, one occurrence of i to the list of k. */
    method AddReferrers(start: seq<multiset<int>>) returns (r: seq<multiset<int>>)
      requires Acyclic(nodes, numInputs) && size == |nodes| == |start|
      ensures |r| == size
      ensures forall k :: 0 <= k < size ==> r[k] == start[k] + Referrers(nodes, numInputs, size, k)
    {
      r := start;
      var i := numInputs;
      RebuiltFromNone(nodes, numInputs, start);
      while i < size
        invariant numInputs <= i <= size && |r| == size
        invariant RebuiltUpTo(nodes, numInputs, start, r, i)
      {
        ghost var r0 := r;
        r := AddSlotsOf(i, r);
        AddReferrersStep(nodes, numInputs, start, r0, r, i);
        i := i + 1;
      }
    }

    /** r holds start plus the dependents found among the nodes [numInputs, i). */
    static ghost predicate RebuiltUpTo(nodes: seq<SNode>, numInputs: nat, start: seq<multiset<int>>, r: seq<multiset<int>>, i: int)
    {
      && numInputs <= i <= |nodes| == |start| == |r|
      && forall k :: 0 <= k < |r| ==> r[k] == start[k] + Referrers(nodes, numInputs, i, k)
    }

    static lemma RebuiltFromNone(nodes: seq<SNode>, numInputs: nat, start: seq<multiset<int>>)
      requires numInputs <= |nodes| == |start|
      ensures RebuiltUpTo(nodes, numInputs, start, start, numInputs)
    {
      forall k | 0 <= k < |start|
        ensures start[k] == start[k] + Referrers(nodes, numInputs, numInputs, k)
      {
        assert Referrers(nodes, numInputs, numInputs, k) == multiset{};
      }
    }

    /** Adding node i's slots to the lists rebuilt from the nodes below it
        gives the lists rebuilt from the nodes up to it. */
    static lemma AddReferrersStep(nodes: seq<SNode>, numInputs: nat, start: seq<multiset<int>>,
                                  r0: seq<multiset<int>>, r: seq<multiset<int>>, i: int)
      requires RebuiltUpTo(nodes, numInputs, start, r0, i) && i < |nodes| == |r|
      requires forall k :: 0 <= k < |r| ==> r[k] == r0[k] + Copies(i, SlotCount(nodes[i], k))
      ensures RebuiltUpTo(nodes, numInputs, start, r, i + 1)
    {
      forall k | 0 <= k < |r|
        ensures r[k] == start[k] + Referrers(nodes, numInputs, i + 1, k)
      {
        ReferrersStep(nodes, numInputs, i, k);
      }
    }

    /** The inner loop of the rebuild: one occurrence of function node i is
        added to the list of every node one of its slots names. */
    method AddSlotsOf(i: int, start: seq<multiset<int>>) returns (r: seq<multiset<int>>)
      requires Acyclic(nodes, numInputs) && numInputs <= i < size == |nodes| == |start|
      ensures |r| == size
      ensures forall k :: 0 <= k < size ==> r[k] == start[k] + Copies(i, SlotCount(nodes[i], k))
    {
      r := start;
      var node := nodes[i];
      RefsBelowSlots(node, i);
      var j := 0;
      while j < NumParams(node.op)
        invariant 0 <= j <= NumParams(node.op) && |r| == size
        invariant forall k :: 0 <= k < size ==> r[k] == start[k] + Copies(i, SlotCountBelow(node, k, j))
      {
        var k := node.Param(j);
        if i >= numInputs {
          AddSlotStep(start, r, node, i, j);
          r := r[k := r[k] + multiset{i}];
        }
        j := j + 1;
      }
    }

    /** Adding one occurrence of i to the list slot j of node names extends
        the count of node's slots taken into account by one. */
    static lemma AddSlotStep(start: seq<multiset<int>>, r: seq<multiset<int>>, node: SNode, i: int, j: nat)
      requires j < NumParams(node.op) && 0 <= node.Param(j) < |r| == |start|
      requires forall k :: 0 <= k < |r| ==> r[k] == start[k] + Copies(i, SlotCountBelow(node, k, j))
      ensures forall k :: 0 <= k < |r| ==>
        r[node.Param(j) := r[node.Param(j)] + multiset{i}][k] == start[k] + Copies(i, SlotCountBelow(node, k, j + 1))
    {
      var p := node.Param(j);
      var r' := r[p := r[p] + multiset{i}];
      forall k | 0 <= k < |r|
        ensures r'[k] == start[k] + Copies(i, SlotCountBelow(node, k, j + 1))
      {
        if k == p {
          var c := SlotCountBelow(node, k, j);
          assert SlotCountBelow(node, k, j + 1) == c + 1;
          AddOneCopy(start[k], i, c);
        } else {
          assert SlotCountBelow(node, k, j + 1) == SlotCountBelow(node, k, j);
        }
      }
    }

    /** Rebuilds the dependents lists of the non-input nodes from the graph.
        Input lists are not cleared, so they keep accumulating. */
    method GenerateLinks()
      requires Acyclic(nodes, numInputs) && size == |nodes| == |links|
      modifies this`links
      ensures LinksMatch(links, nodes, numInputs)
      ensures forall k :: 0 <= k < numInputs ==> links[k] == old(links[k]) + Referrers(nodes, numInputs, size, k)
    {
      var i := numInputs;
      while i < size
        invariant numInputs <= i <= size == |links|
        invariant forall k :: 0 <= k < size ==> links[k] == if numInputs <= k < i then multiset{} else old(links[k])
      {
        links := links[i := multiset{}];
        i := i + 1;
      }
      links := AddReferrers(links);
    }

    /** Checks that every cached dependent of a non-input node really names it. */
    method VerifyLinksExist() returns (ok: bool)
      requires 0 <= numInputs <= size == |nodes| == |links|
      requires forall k, d :: numInputs <= k < size && d in links[k] ==> 0 <= d < size
      ensures ok <==> LinksExist(links, nodes, numInputs)
    {
      var i := numInputs;
      while i < size
        invariant numInputs <= i <= size
        invariant forall k :: numInputs <= k < i ==> ListExists(links[k], nodes, k)
      {
        var rest := links[i];
        while rest != multiset{}
          invariant rest <= links[i]
          invariant forall d :: d in links[i] && d !in rest ==> RefersTo(nodes[d], i)
          decreases |rest|
        {
          NonEmptyHasElement(rest);
          var j :| j in rest;
          var node := nodes[j];
          var found := false;
          var k := 0;
          while k < NumParams(node.op)
            invariant 0 <= k <= NumParams(node.op)
            invariant forall t :: 0 <= t < k ==> node.Param(t) != i
          {
            if node.Param(k) == i {
              found := true;
              break;
            }
            k := k + 1;
          }
          if !found {
            return false;
          }
          rest := rest - multiset{j};
        }
        assert ListExists(links[i], nodes, i);
        i := i + 1;
      }
      return true;
    }

    /** Checks that the cached lists of the non-input nodes equal a rebuild. */
    method VerifyAllLinks() returns (ok: bool)
      requires Acyclic(nodes, numInputs) && size == |nodes| == |links|
      ensures ok <==> LinksMatch(links, nodes, numInputs)
    {
      var rebuilt := AddReferrers(seq(size, _ => multiset{}));
      var notEqual := false;
      var i := numInputs;
      while i < size
        invariant numInputs <= i <= size && |rebuilt| == size
        invariant notEqual <==> exists k :: numInputs <= k < i && links[k] != Referrers(nodes, numInputs, size, k)
      {
        assert rebuilt[i] == Referrers(nodes, numInputs, size, i);
        var differs := CompareLinks(links[i], rebuilt[i]);
        if differs {
          notEqual := true;
        }
        i := i + 1;
      }
      ok := !notEqual;
    }

    /** The comparison of one cached list with its rebuild: each cached entry
        is struck off the rebuilt list, and anything missing from it, or left
        over in it, is a difference. */
    static method CompareLinks(cached: multiset<int>, linksReal: multiset<int>) returns (differs: bool)
      ensures differs <==> cached != linksReal
    {
      var remaining := linksReal;
      var rest := cached;
      ghost var consumed: multiset<int> := multiset{};
      differs := false;
      while rest != multiset{}
        invariant consumed + rest == cached
        invariant remaining == linksReal - consumed
        invariant differs <==> !(consumed <= linksReal)
        decreases |rest|
      {
        NonEmptyHasElement(rest);
        var j :| j in rest;
        StrikeOff(linksReal, consumed, j);
        if j !in remaining {
          differs := true;
        } else {
          remaining := remaining - multiset{j};
        }
        rest := rest - multiset{j};
        consumed := consumed + multiset{j};
      }
      assert consumed == cached;
      if |remaining| > 0 {
        differs := true;
        NonEmptyHasElement(remaining);
      }
      LeftoverEmpty(cached, linksReal);
    }

    /** Striking j off what is left of linksReal after consumed. */
    static lemma StrikeOff(linksReal: multiset<int>, consumed: multiset<int>, j: int)
      ensures j in linksReal - consumed ==> (linksReal - consumed) - multiset{j} == linksReal - (consumed + multiset{j})
      ensures j !in linksReal - consumed ==> linksReal - consumed == linksReal - (consumed + multiset{j})
      ensures consumed + multiset{j} <= linksReal <==> consumed <= linksReal && j in linksReal - consumed
    {
      var after := consumed + multiset{j};
      if j in linksReal - consumed {
        MultisetExt((linksReal - consumed) - multiset{j}, linksReal - after);
      } else {
        MultisetExt(linksReal - consumed, linksReal - after);
      }
    }

    /** A sub-multiset leaving nothing over is the whole. */
    static lemma LeftoverEmpty(cached: multiset<int>, linksReal: multiset<int>)
      ensures cached <= linksReal && linksReal - cached == multiset{} ==> cached == linksReal
    {
      if cached <= linksReal && linksReal - cached == multiset{} {
        forall x
          ensures cached[x] == linksReal[x]
        {
          assert (linksReal - cached)[x] == 0;
        }
        MultisetExt(cached, linksReal);
      }
    }

    /** Replaces node i by a random node drawn from the available operations. */
    method Randomise(i: int, d: NodeDraw)
      requires |ops| > 0 && 0 <= i < |nodes|
      modifies this`nodes
      ensures nodes == old(nodes)[i := Randomised(old(nodes)[i], ops, i, d)]
    {
      var node := nodes[i];
      var op := ops[d.op % |ops|];
      node := node.(op := op);
      if i > 1 {
        if op == ValOp {
          node := node.(p0 := d.p0 % 1001, p1 := 0, p2 := 0);
        } else {
          var j := 0;
          while j < NumParams(op)
            invariant 0 <= j <= NumParams(op)
            invariant node == FillSlots(old(nodes)[i].(op := op), i, d, j)
          {
            node := node.WithParam(j, d.Slot(j) % i);
            j := j + 1;
          }
        }
      } else {
        node := node.(p0 := 0, p1 := 0, p2 := 0);
      }
      nodes := nodes[i := node];
    }

    /** Sizes the graph, marks the inputs, randomises every function node and
        rebuilds the dependents index. */
    method Init(draws: seq<NodeDraw>)
      requires 1 <= numInputs <= size && |draws| >= size
      requires |ops| > 0 && forall t :: 0 <= t < |ops| ==> IsFunctionOp(ops[t])
      requires changed == []
      modifies this`nodes, this`links, this`base
      ensures Valid() && base == nodes
      ensures forall t :: 0 <= t < numInputs ==> nodes[t] == ResizedNodes(old(nodes), size)[t].(op := InputOp)
      ensures forall t :: numInputs <= t < size ==>
        nodes[t] == Randomised(ResizedNodes(old(nodes), size)[t], ops, t, draws[t])
      ensures forall t :: 0 <= t < numInputs ==>
        links[t] == ResizedLinks(old(links), size)[t] + Referrers(nodes, numInputs, size, t)
    {
      nodes := ResizedNodes(nodes, size);
      links := ResizedLinks(links, size);
      MarkInputs();
      RandomiseAll(draws);
      forall t | numInputs <= t < size
        ensures IsFunctionOp(nodes[t].op) && RefsBelow(nodes[t], t)
      {
        assert nodes[t].op in ops;
      }
      GenerateLinks();
      base := nodes;
    }

    /** Gives the first numInputs nodes the input operation. */
    method MarkInputs()
      requires 0 <= numInputs <= |nodes|
      modifies this`nodes
      ensures |nodes| == |old(nodes)|
      ensures forall t :: 0 <= t < |nodes| ==> nodes[t] == if t < numInputs then old(nodes[t]).(op := InputOp) else old(nodes[t])
    {
      var i := 0;
      while i < numInputs
        invariant 0 <= i <= numInputs && |nodes| == |old(nodes)|
        invariant forall t :: 0 <= t < |nodes| ==> nodes[t] == if t < i then old(nodes[t]).(op := InputOp) else old(nodes[t])
      {
        nodes := nodes[i := nodes[i].(op := InputOp)];
        i := i + 1;
      }
    }

    /** Randomises every non-input node in index order. */
    method RandomiseAll(draws: seq<NodeDraw>)
      requires 0 <= numInputs <= |nodes| <= |draws| && |ops| > 0
      modifies this`nodes
      ensures |nodes| == |old(nodes)|
      ensures forall t :: 0 <= t < numInputs ==> nodes[t] == old(nodes[t])
      ensures forall t :: numInputs <= t < |nodes| ==> nodes[t] == Randomised(old(nodes[t]), ops, t, draws[t])
    {
      var i := numInputs;
      while i < |nodes|
        invariant numInputs <= i <= |nodes| == |old(nodes)|
        invariant forall t :: 0 <= t < numInputs ==> nodes[t] == old(nodes[t])
        invariant forall t :: numInputs <= t < i ==> nodes[t] == Randomised(old(nodes[t]), ops, t, draws[t])
        invariant forall t :: i <= t < |nodes| ==> nodes[t] == old(nodes[t])
      {
        Randomise(i, draws[i]);
        i := i + 1;
      }
    }

    /** Rewires one operand of node i to a random lower node and marks it changed. */
    method Smut(i: int, d: MutationDraw)
      requires Valid() && numInputs <= i < size
      modifies this`nodes, this`links, this`changed
      ensures Valid()
      ensures nodes == old(nodes)[i := Smutated(old(nodes)[i], i, d)]
      ensures forall k :: 0 <= k < numInputs ==> links[k] == old(links[k])
      ensures forall c :: c in old(changed) ==> c in changed
      ensures i > 1 && NumParams(old(nodes)[i].op) > 0 ==>
        MarkedFrom(i, old(changed))
      ensures !(i > 1 && NumParams(old(nodes)[i].op) > 0) ==> links == old(links) && changed == old(changed)
    {
      var node := nodes[i];
      if i > 1 {
        if node.op == ValOp {
          // a value node is never among the engine's operations
          assert false;
        } else if NumParams(node.op) > 0 {
          var j := d.slot % NumParams(node.op);
          var newLink := d.link % i;
          Rewire(i, j, newLink);
          SwitchedKeepsInputs(old(links), numInputs, i, node.Param(j), newLink);
        }
      }
    }

    /** Points used slot s of function node i at b: the node is written,
        its link switched and the node marked changed. */
    method Rewire(i: int, s: nat, b: int)
      requires Valid() && numInputs <= i < size && s < NumParams(nodes[i].op) && 0 <= b < i
      modifies this`nodes, this`links, this`changed
      ensures Valid()
      ensures nodes == old(nodes)[i := old(nodes[i]).WithParam(s, b)]
      ensures links == SwitchedLinks(old(links), numInputs, i, old(nodes[i]).Param(s), b)
      ensures forall c :: c in old(changed) ==> c in changed
      ensures MarkedFrom(i, old(changed))
    {
      var node := nodes[i];
      var oldLink := node.Param(s);
      var node' := node.WithParam(s, b);
      RefsBelowSlots(node, i);
      RewireKeepsLinks(links, nodes, numInputs, i, s, b);
      RefsBelowSlots(node', i);
      AcyclicUpdate(nodes, numInputs, i, node');
      nodes := nodes[i := node'];
      SwitchLink(i, oldLink, b);
      assert Acyclic(nodes, numInputs) && LinksMatch(links, nodes, numInputs);
      LinksMatchAbove(links, nodes, numInputs);
      MarkChanged(i);
      forall c, e | c in changed && 0 <= c < |links| && e in links[c]
        ensures e in changed
      {
        SwitchedAddsOnly(old(links), numInputs, i, oldLink, b, c, e);
      }
    }

    /** Picks a non-input node, saves it for restore() and mutates it. */
    method Mutate(d: MutationDraw)
      requires Valid() && numInputs < size
      modifies this`nodes, this`links, this`changed, this`oldNode, this`oldNodeIndex
      ensures Valid() && UndoOk()
      ensures oldNodeIndex == numInputs + d.node % (size - numInputs)
      ensures oldNode == old(nodes)[oldNodeIndex]
      ensures nodes == old(nodes)[oldNodeIndex := Smutated(oldNode, oldNodeIndex, d)]
      ensures forall k :: 0 <= k < numInputs ==> links[k] == old(links[k])
      ensures forall c :: c in old(changed) ==> c in changed
      ensures oldNodeIndex > 1 && NumParams(oldNode.op) > 0 ==>
        MarkedFrom(oldNodeIndex, old(changed))
      ensures !(oldNodeIndex > 1 && NumParams(oldNode.op) > 0) ==> links == old(links) && changed == old(changed)
    {
      var nodeIndex := numInputs + d.node % (size - numInputs);
      oldNode := nodes[nodeIndex];
      oldNodeIndex := nodeIndex;
      assert IsFunctionOp(oldNode.op) && RefsBelow(oldNode, oldNodeIndex);
      ghost var changed0, links0 := changed, links;
      Smut(nodeIndex, d);
      ghost var rewired := nodeIndex > 1 && NumParams(oldNode.op) > 0;
      assert rewired ==> MarkedFrom(nodeIndex, changed0);
      assert !rewired ==> links == links0 && changed == changed0;
      assert nodes[oldNodeIndex] == Smutated(oldNode, oldNodeIndex, d);
      assert AtMostOneSlotApart(oldNode, nodes[oldNodeIndex]);
    }

    /** Writes the saved node back when it differs from the current one in a
        used slot, switching that slot's link and marking the node changed. */
    method Restore()
      requires Valid() && UndoOk()
      modifies this`nodes, this`links, this`changed
      ensures Valid() && UndoOk()
      ensures nodes == old(nodes)[oldNodeIndex := oldNode]
      ensures forall k :: 0 <= k < numInputs ==> links[k] == old(links[k])
      ensures forall c :: c in old(changed) ==> c in changed
      ensures old(nodes[oldNodeIndex]) == oldNode ==> links == old(links) && changed == old(changed)
      ensures old(nodes[oldNodeIndex]) != oldNode ==>
        MarkedFrom(oldNodeIndex, old(changed))
    {
      var current := nodes[oldNodeIndex];
      var i := 0;
      while i < NumParams(oldNode.op)
        invariant 0 <= i <= NumParams(oldNode.op)
        invariant forall t :: 0 <= t < i ==> oldNode.Param(t) == current.Param(t)
      {
        var newLink := oldNode.Param(i);
        var oldLink := current.Param(i);
        if oldLink != newLink {
          assert current == oldNode.WithParam(i, oldLink);
          assert oldNode == current.WithParam(i, newLink);
          RefsBelowSlots(oldNode, oldNodeIndex);
          Rewire(oldNodeIndex, i, newLink);
          SwitchedKeepsInputs(old(links), numInputs, oldNodeIndex, oldLink, newLink);
          return;
        }
        i := i + 1;
      }
      assert current == oldNode;
    }

    /** A mutation immediately undone leaves the graph and its dependents
        index exactly as they were. */
    method MutateThenRestore(d: MutationDraw)
      requires Valid() && numInputs < size
      modifies this`nodes, this`links, this`changed, this`oldNode, this`oldNodeIndex
      ensures Valid() && nodes == old(nodes) && links == old(links)
    {
      ghost var nodes0, links0 := nodes, links;
      Mutate(d);
      Restore();
      assert nodes == nodes0;
      forall k | 0 <= k < |links|
        ensures links[k] == links0[k]
      {
      }
    }
  }
}
