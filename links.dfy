/** The dependents index of a node graph: for each node k, the multiset of
    nodes that use k as an operand, with one occurrence per operand slot that
    names k. This is what a from-scratch rebuild computes, and what the
    engine keeps up to date one rewired slot at a time. */
module Links {
  import opened SNodes
  import opened Evaluation

  /** The number of slots among the first j of node n that name k. */
  function SlotCountBelow(n: SNode, k: int, j: nat): nat
    requires j <= 3
  {
    if j == 0 then 0 else SlotCountBelow(n, k, j - 1) + (if n.Param(j - 1) == k then 1 else 0)
  }

  /** The number of operand slots of node n that name k. */
  function SlotCount(n: SNode, k: int): nat
  {
    SlotCountBelow(n, k, NumParams(n.op))
  }

  /** Node n names k in at least one of the slots it uses. */
  predicate RefersTo(n: SNode, k: int)
  {
    exists s :: 0 <= s < NumParams(n.op) && n.Param(s) == k
  }

  lemma {:induction false} SlotCountBelowPositive(n: SNode, k: int, j: nat)
    requires j <= 3
    ensures SlotCountBelow(n, k, j) > 0 <==> exists s :: 0 <= s < j && n.Param(s) == k
  {
    if j > 0 {
      SlotCountBelowPositive(n, k, j - 1);
    }
  }

  /** A node is counted as a dependent of k exactly when it names k. */
  lemma SlotCountPositive(n: SNode, k: int)
    ensures SlotCount(n, k) > 0 <==> RefersTo(n, k)
  {
    SlotCountBelowPositive(n, k, NumParams(n.op));
  }

  lemma {:induction false} SlotCountBelowRewire(n: SNode, s: nat, b: int, k: int, j: nat)
    requires s < 3 && j <= 3
    ensures SlotCountBelow(n.WithParam(s, b), k, j)
         == SlotCountBelow(n, k, j)
            - (if s < j && n.Param(s) == k then 1 else 0)
            + (if s < j && b == k then 1 else 0)
  {
    if j > 0 {
      SlotCountBelowRewire(n, s, b, k, j - 1);
    }
  }

  /** Rewiring slot s from a to b moves one count from a to b. */
  lemma SlotCountRewire(n: SNode, s: nat, b: int, k: int)
    requires s < NumParams(n.op)
    ensures SlotCount(n.WithParam(s, b), k)
         == SlotCount(n, k) - (if n.Param(s) == k then 1 else 0) + (if b == k then 1 else 0)
  {
    SlotCountBelowRewire(n, s, b, k, NumParams(n.op));
  }

  /** c copies of x. */
  function Copies(x: int, c: nat): (m: multiset<int>)
  {
    if c == 0 then multiset{} else Copies(x, c - 1) + multiset{x}
  }

  lemma {:induction false} CopiesCount(x: int, c: nat, y: int)
    ensures Copies(x, c)[y] == if y == x then c else 0
  {
    if c > 0 {
      CopiesCount(x, c - 1, y);
    }
  }

  /** One more copy of x on top of c copies. */
  lemma AddOneCopy(m: multiset<int>, x: int, c: nat)
    ensures m + Copies(x, c) + multiset{x} == m + Copies(x, c + 1)
  {
    assert Copies(x, c + 1) == Copies(x, c) + multiset{x};
  }

  /** Each index in [lo, hi), counts[i] times. */
  function Gather(counts: seq<nat>, lo: nat, hi: nat): multiset<int>
    requires hi <= |counts|
    decreases hi
  {
    if hi <= lo then multiset{}
    else Gather(counts, lo, hi - 1) + Copies(hi - 1, counts[hi - 1])
  }

  lemma {:induction false} GatherCount(counts: seq<nat>, lo: nat, hi: nat, x: int)
    requires hi <= |counts|
    ensures Gather(counts, lo, hi)[x] == if lo <= x < hi then counts[x] else 0
    decreases hi
  {
    if hi > lo {
      GatherCount(counts, lo, hi - 1, x);
      CopiesCount(hi - 1, counts[hi - 1], x);
      UnionCount(Gather(counts, lo, hi - 1), Copies(hi - 1, counts[hi - 1]), x);
    }
  }

  /** Multiplicities add up under multiset union. */
  lemma UnionCount(a: multiset<int>, b: multiset<int>, x: int)
    ensures (a + b)[x] == a[x] + b[x]
  {
  }

  /** How many slots of each node name k. */
  function SlotCounts(nodes: seq<SNode>, k: int): (r: seq<nat>)
    ensures |r| == |nodes|
    ensures forall i :: 0 <= i < |nodes| ==> r[i] == SlotCount(nodes[i], k)
  {
    seq(|nodes|, i requires 0 <= i < |nodes| => SlotCount(nodes[i], k))
  }

  /** The dependents of k among the nodes [lo, hi), one occurrence per slot. */
  function Referrers(nodes: seq<SNode>, lo: nat, hi: nat, k: int): multiset<int>
    requires hi <= |nodes|
  {
    Gather(SlotCounts(nodes, k), lo, hi)
  }

  /** Node x occurs in the rebuilt list of k once per slot of x that names k. */
  lemma ReferrersCount(nodes: seq<SNode>, lo: nat, hi: nat, k: int, x: int)
    requires hi <= |nodes|
    ensures Referrers(nodes, lo, hi, k)[x] == if lo <= x < hi then SlotCount(nodes[x], k) else 0
  {
    GatherCount(SlotCounts(nodes, k), lo, hi, x);
  }

  /** The rebuild scans the nodes in order: node i adds one copy of itself
      per slot that names k. */
  lemma ReferrersStep(nodes: seq<SNode>, lo: nat, i: nat, k: int)
    requires lo <= i < |nodes|
    ensures Referrers(nodes, lo, i + 1, k) == Referrers(nodes, lo, i, k) + Copies(i, SlotCount(nodes[i], k))
  {
  }

  /** Every rebuilt dependent of k is a scanned node that names k. */
  lemma ReferrerNames(nodes: seq<SNode>, lo: nat, k: int, d: int)
    requires d in Referrers(nodes, lo, |nodes|, k)
    ensures lo <= d < |nodes| && RefersTo(nodes[d], k)
  {
    ReferrersCount(nodes, lo, |nodes|, k, d);
    SlotCountPositive(nodes[d], k);
  }

  /** Only later function nodes depend on a node. */
  lemma ReferrersAbove(nodes: seq<SNode>, numInputs: nat, k: int, d: int)
    requires Acyclic(nodes, numInputs)
    requires d in Referrers(nodes, numInputs, |nodes|, k)
    ensures numInputs <= d < |nodes| && k < d
  {
    ReferrerNames(nodes, numInputs, k, d);
    var s :| 0 <= s < NumParams(nodes[d].op) && nodes[d].Param(s) == k;
    RefsBelowSlots(nodes[d], d);
  }

  /** A function node that names k appears in the rebuilt list of k. */
  lemma ReferrerPresent(nodes: seq<SNode>, numInputs: nat, k: int, d: int)
    requires numInputs <= d < |nodes| && RefersTo(nodes[d], k)
    ensures d in Referrers(nodes, numInputs, |nodes|, k)
  {
    ReferrersCount(nodes, numInputs, |nodes|, k, d);
    SlotCountPositive(nodes[d], k);
  }

  /** Every listed dependent of a non-input node is a later node. */
  predicate DependentsAbove(links: seq<multiset<int>>, numInputs: nat)
  {
    forall k, d :: numInputs <= k < |links| && d in links[k] ==> k < d < |links|
  }

  /** The cached lists of every non-input node equal the rebuild. */
  predicate LinksMatch(links: seq<multiset<int>>, nodes: seq<SNode>, numInputs: nat)
  {
    && |links| == |nodes|
    && forall k :: numInputs <= k < |nodes| ==> links[k] == Referrers(nodes, numInputs, |nodes|, k)
  }

  /** Every entry of the list l of node k is a node that names k. */
  predicate ListExists(l: multiset<int>, nodes: seq<SNode>, k: int)
  {
    forall d :: d in l ==> 0 <= d < |nodes| && RefersTo(nodes[d], k)
  }

  /** Every cached dependent of a non-input node is a node that names it. */
  predicate LinksExist(links: seq<multiset<int>>, nodes: seq<SNode>, numInputs: nat)
  {
    && |links| == |nodes|
    && forall k :: numInputs <= k < |nodes| ==> ListExists(links[k], nodes, k)
  }

  /** In an acyclic graph the exact lists only name later nodes. */
  lemma LinksMatchAbove(links: seq<multiset<int>>, nodes: seq<SNode>, numInputs: nat)
    requires Acyclic(nodes, numInputs) && LinksMatch(links, nodes, numInputs)
    ensures DependentsAbove(links, numInputs)
  {
    forall k, d | numInputs <= k < |links| && d in links[k]
      ensures k < d < |links|
    {
      ReferrersAbove(nodes, numInputs, k, d);
    }
  }

  /** Exact lists are in particular sound. */
  lemma LinksMatchExist(links: seq<multiset<int>>, nodes: seq<SNode>, numInputs: nat)
    requires LinksMatch(links, nodes, numInputs)
    ensures LinksExist(links, nodes, numInputs)
  {
    forall k | numInputs <= k < |nodes|
      ensures ListExists(links[k], nodes, k)
    {
      forall d | d in links[k]
        ensures 0 <= d < |nodes| && RefersTo(nodes[d], k)
      {
        ReferrerNames(nodes, numInputs, k, d);
      }
    }
  }

  /** The lists after node i is rewired from a to b: one occurrence of i
      leaves the list of a and one joins the list of b; input lists are left
      alone, and nothing happens when a and b coincide. */
  function SwitchedLinks(links: seq<multiset<int>>, numInputs: nat, i: int, a: int, b: int): (r: seq<multiset<int>>)
    requires a < |links| && b < |links|
    ensures |r| == |links|
  {
    if a == b then links
    else
      var l1 := if a >= numInputs then links[a := links[a] - multiset{i}] else links;
      if b >= numInputs then l1[b := l1[b] + multiset{i}] else l1
  }

  /** Input-slot lists are never touched by a switch. */
  lemma SwitchedKeepsInputs(links: seq<multiset<int>>, numInputs: nat, i: int, a: int, b: int)
    requires a < |links| && b < |links|
    ensures forall k :: 0 <= k < numInputs && k < |links| ==> SwitchedLinks(links, numInputs, i, a, b)[k] == links[k]
  {
  }

  /** The effect of a switch on one multiplicity of a non-input list. */
  lemma SwitchedCount(links: seq<multiset<int>>, numInputs: nat, i: int, a: int, b: int, k: int, x: int)
    requires a < |links| && b < |links| && numInputs <= k < |links| && a != b
    requires a >= numInputs ==> links[a][i] >= 1
    ensures SwitchedLinks(links, numInputs, i, a, b)[k][x]
         == links[k][x] - (if x == i && k == a then 1 else 0) + (if x == i && k == b then 1 else 0)
  {
    var l1 := if a >= numInputs then links[a := links[a] - multiset{i}] else links;
    assert l1[k][x] == links[k][x] - (if x == i && k == a then 1 else 0);
  }

  /** One multiplicity of a rewired graph's rebuilt list, read off the old one. */
  lemma RewireCount(links: seq<multiset<int>>, nodes: seq<SNode>, numInputs: nat, i: int, s: nat, b: int, k: int, x: int)
    requires Acyclic(nodes, numInputs) && LinksMatch(links, nodes, numInputs)
    requires numInputs <= i < |nodes| && s < NumParams(nodes[i].op) && 0 <= b < i
    requires numInputs <= k < |nodes|
    ensures SwitchedLinks(links, numInputs, i, nodes[i].Param(s), b)[k][x]
         == Referrers(nodes[i := nodes[i].WithParam(s, b)], numInputs, |nodes|, k)[x]
  {
    var a := nodes[i].Param(s);
    var nodes' := nodes[i := nodes[i].WithParam(s, b)];
    ReferrersCount(nodes, numInputs, |nodes|, k, x);
    ReferrersCount(nodes', numInputs, |nodes'|, k, x);
    if a != b {
      RefsBelowSlots(nodes[i], i);
      if a >= numInputs {
        ReferrersCount(nodes, numInputs, |nodes|, a, i);
        SlotCountPositive(nodes[i], a);
      }
      SwitchedCount(links, numInputs, i, a, b, k, x);
      if x == i {
        SlotCountRewire(nodes[i], s, b, k);
      }
    } else {
      assert nodes[i].WithParam(s, b) == nodes[i];
      assert nodes' == nodes;
    }
  }

  /** Rewiring one used slot of a function node and switching its link keeps
      the cached lists equal to the rebuild. */
  lemma RewireKeepsLinks(links: seq<multiset<int>>, nodes: seq<SNode>, numInputs: nat, i: int, s: nat, b: int)
    requires Acyclic(nodes, numInputs) && LinksMatch(links, nodes, numInputs)
    requires numInputs <= i < |nodes| && s < NumParams(nodes[i].op) && 0 <= b < i
    ensures LinksMatch(SwitchedLinks(links, numInputs, i, nodes[i].Param(s), b),
                       nodes[i := nodes[i].WithParam(s, b)], numInputs)
  {
    var nodes' := nodes[i := nodes[i].WithParam(s, b)];
    var links' := SwitchedLinks(links, numInputs, i, nodes[i].Param(s), b);
    forall k | numInputs <= k < |nodes|
      ensures links'[k] == Referrers(nodes', numInputs, |nodes'|, k)
    {
      forall x
        ensures links'[k][x] == Referrers(nodes', numInputs, |nodes'|, k)[x]
      {
        RewireCount(links, nodes, numInputs, i, s, b, k, x);
      }
      MultisetExt(links'[k], Referrers(nodes', numInputs, |nodes'|, k));
    }
  }

  /** Equal multisets are those with equal multiplicities. */
  lemma MultisetExt(m: multiset<int>, n: multiset<int>)
    requires forall x :: m[x] == n[x]
    ensures m == n
  {
    assert forall x :: m[x] == n[x];
  }

  /** A multiset with no element is the empty one. */
  lemma NoElementIsEmpty(m: multiset<int>)
    ensures (forall x :: x !in m) ==> m == multiset{}
  {
    if forall x :: x !in m {
      assert forall x :: m[x] == multiset{}[x];
    }
  }

  /** A non-empty multiset has an element to iterate over. */
  lemma NonEmptyHasElement(m: multiset<int>)
    requires m != multiset{}
    ensures exists x :: x in m
  {
    NoElementIsEmpty(m);
  }
}
