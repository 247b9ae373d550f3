/** The and-inverter graphs that hold interpolants: hash-consed construction and
    conversion to clauses. */
module Aig {
  import opened Logic

  // ---------------------------------------------------------------- formulas

  /** What an edge of a graph stands for. */
  datatype Form = Top | Atom(v: int) | Not(f: Form) | And(f: Form, g: Form)

  predicate Holds(f: Form, m: Model) {
    match f
    case Top => true
    case Atom(v) => v in m
    case Not(g) => !Holds(g, m)
    case And(g, h) => Holds(g, m) && Holds(h, m)
  }

  function Support(f: Form): set<int> {
    match f
    case Top => {}
    case Atom(v) => {v}
    case Not(g) => Support(g)
    case And(g, h) => Support(g) + Support(h)
  }

  /** A formula says nothing about variables it does not mention. */
  lemma {:induction false} SupportDecides(f: Form, m: Model, n: Model)
    requires forall v :: v in Support(f) ==> (v in m <==> v in n)
    ensures Holds(f, m) <==> Holds(f, n)
  {
    match f
    case Top =>
    case Atom(v) =>
    case Not(g) => SupportDecides(g, m, n);
    case And(g, h) => SupportDecides(g, m, n); SupportDecides(h, m, n);
  }

  /** `f` has the same models as `g` and no further variables. */
  ghost predicate Means(f: Form, g: Form) {
    (forall m: Model :: Holds(f, m) <==> Holds(g, m)) && Support(f) <= Support(g)
  }

  lemma MeansItself(f: Form)
    ensures Means(f, f)
  {
  }

  lemma MeansTrans(f: Form, g: Form, h: Form)
    requires Means(f, g) && Means(g, h)
    ensures Means(f, h)
  {
  }

  lemma MeansNot(f: Form, g: Form)
    requires Means(f, g)
    ensures Means(Not(f), Not(g))
  {
    forall m: Model
      ensures Holds(Not(f), m) <==> Holds(Not(g), m)
    {
      assert Holds(f, m) <==> Holds(g, m);
    }
  }

  lemma MeansNotNot(f: Form)
    ensures Means(f, Not(Not(f)))
  {
    assert Support(Not(f)) == Support(f);
    forall m: Model
      ensures Holds(f, m) <==> Holds(Not(Not(f)), m)
    {
      assert Holds(Not(f), m) <==> !Holds(f, m);
    }
  }

  lemma MeansAnd(f: Form, g: Form, h: Form, k: Form)
    requires Means(f, h) && Means(g, k)
    ensures Means(And(f, g), And(h, k))
  {
    forall m: Model
      ensures Holds(And(f, g), m) <==> Holds(And(h, k), m)
    {
      assert (Holds(f, m) <==> Holds(h, m)) && (Holds(g, m) <==> Holds(k, m));
    }
  }

  lemma MeansOr(f: Form, g: Form, h: Form, k: Form)
    requires Means(f, h) && Means(g, k)
    ensures Means(Or(f, g), Or(h, k))
  {
    MeansNot(f, h);
    MeansNot(g, k);
    MeansAnd(Not(f), Not(g), Not(h), Not(k));
    MeansNot(And(Not(f), Not(g)), And(Not(h), Not(k)));
  }

  lemma SimpleAnds(f: Form, g: Form)
    ensures Means(f, And(f, f)) && Means(f, And(f, Top)) && Means(f, And(Top, f))
    ensures Means(Not(Top), And(Not(Top), f)) && Means(Not(Top), And(f, Not(Top)))
    ensures Means(Not(Top), And(f, Not(f))) && Means(Not(Top), And(Not(f), f))
  {
    assert Support(Not(Top)) == Support(Top) == {};
    forall m: Model
      ensures Holds(Top, m) && !Holds(Not(Top), m) && (Holds(Not(f), m) <==> !Holds(f, m))
    {
      assert Holds(Top, m);
    }
  }

  function Or(f: Form, g: Form): Form {
    Not(And(Not(f), Not(g)))
  }

  function OfLiteral(l: Lit): Form {
    if l > 0 then Atom(Var(l)) else Not(Atom(Var(l)))
  }

  function Conj(fs: seq<Form>): Form {
    if fs == [] then Top else And(Conj(fs[..|fs|-1]), fs[|fs|-1])
  }

  lemma {:induction false} ConjHolds(fs: seq<Form>, m: Model)
    ensures Holds(Conj(fs), m) <==> forall i :: 0 <= i < |fs| ==> Holds(fs[i], m)
    decreases |fs|
  {
    if fs != [] {
      ConjHolds(fs[..|fs|-1], m);
    }
  }

  lemma {:induction false} ConjSupport(fs: seq<Form>)
    ensures forall v :: v in Support(Conj(fs)) <==> exists i :: 0 <= i < |fs| && v in Support(fs[i])
    decreases |fs|
  {
    if fs != [] {
      var n := |fs| - 1;
      ConjSupport(fs[..n]);
      forall v | v in Support(Conj(fs))
        ensures exists i :: 0 <= i < |fs| && v in Support(fs[i])
      {
        if v in Support(Conj(fs[..n])) {
          var i :| 0 <= i < n && v in Support(fs[..n][i]);
          assert v in Support(fs[i]);
        } else {
          assert v in Support(fs[n]);
        }
      }
      forall v, i | 0 <= i < |fs| && v in Support(fs[i])
        ensures v in Support(Conj(fs))
      {
        if i < n {
          assert v in Support(fs[..n][i]);
        }
      }
    }
  }

  // ------------------------------------------------------------------- graphs

  /** Node zero is the constant true; `node - 1` indexes the node vector. */
  datatype Edge = Edge(node: nat, negated: bool)

  const TRUE := Edge(0, false)
  const FALSE := Edge(0, true)

  function Negate(e: Edge): Edge {
    Edge(e.node, !e.negated)
  }

  /** The order of the edge numbers. */
  predicate Greater(e: Edge, d: Edge) {
    e.node > d.node || (e.node == d.node && e.negated && !d.negated)
  }

  datatype Node = Variable(variable: int) | Gate(edge1: Edge, edge2: Edge)

  /** Variables are positive; gates have two earlier, distinct, non-constant nodes. */
  predicate NodeAt(nodes: seq<Node>, k: nat)
    requires k < |nodes|
  {
    match nodes[k]
    case Variable(v) => v > 0
    case Gate(e, d) => 0 < e.node <= k && 0 < d.node <= k
  }

  predicate Layered(nodes: seq<Node>) {
    forall k :: 0 <= k < |nodes| ==> NodeAt(nodes, k)
  }

  function Denote(nodes: seq<Node>, e: Edge): Form
    requires Layered(nodes) && e.node <= |nodes|
    decreases e.node, e.negated
  {
    if e.negated then Not(Denote(nodes, Negate(e)))
    else if e.node == 0 then Top
    else
      assert NodeAt(nodes, e.node - 1);
      match nodes[e.node - 1]
      case Variable(v) => Atom(v)
      case Gate(e1, e2) => And(Denote(nodes, e1), Denote(nodes, e2))
  }

  /** Adding nodes never changes what existing edges stand for. */
  lemma {:induction false} DenoteStable(nodes: seq<Node>, more: seq<Node>, e: Edge)
    requires Layered(nodes) && Layered(more) && nodes <= more && e.node <= |nodes|
    ensures Denote(more, e) == Denote(nodes, e)
    decreases e.node, e.negated
  {
    if e.negated {
      DenoteStable(nodes, more, Negate(e));
    } else if e.node != 0 {
      assert NodeAt(nodes, e.node - 1);
      if nodes[e.node - 1].Gate? {
        DenoteStable(nodes, more, nodes[e.node - 1].edge1);
        DenoteStable(nodes, more, nodes[e.node - 1].edge2);
      }
    }
  }

  lemma DenoteNegate(nodes: seq<Node>, e: Edge)
    requires Layered(nodes) && e.node <= |nodes|
    ensures Means(Denote(nodes, Negate(e)), Not(Denote(nodes, e)))
  {
    hide Means;
    assert Negate(Negate(e)) == e;
    MeansItself(Not(Denote(nodes, e)));
    if e.negated {
      MeansNotNot(Denote(nodes, Negate(e)));
    }
  }

  /** `r` stands for `f`. */
  ghost predicate Builds(nodes: seq<Node>, r: Edge, f: Form) {
    Layered(nodes) && r.node <= |nodes| && Means(Denote(nodes, r), f)
  }

  function Sorted(e: Edge, d: Edge): (Edge, Edge) {
    if Greater(e, d) then (d, e) else (e, d)
  }

  /** The hash tables know exactly the nodes, so that no node is built twice. */
  ghost predicate Indexed(nodes: seq<Node>, vars: map<int, nat>, gates: map<(Edge, Edge), nat>) {
    && (forall v :: v in vars ==> 0 < vars[v] <= |nodes| && nodes[vars[v] - 1] == Variable(v))
    && (forall p :: p in gates ==>
         && 0 < gates[p] <= |nodes| && nodes[gates[p] - 1].Gate?
         && Sorted(nodes[gates[p] - 1].edge1, nodes[gates[p] - 1].edge2) == p)
    && (forall k :: 0 <= k < |nodes| ==> Registered(nodes, vars, gates, k))
  }

  ghost predicate Registered(nodes: seq<Node>, vars: map<int, nat>, gates: map<(Edge, Edge), nat>, k: nat)
    requires k < |nodes|
  {
    match nodes[k]
    case Variable(v) => v in vars && vars[v] == k + 1
    case Gate(e, d) => Sorted(e, d) in gates && gates[Sorted(e, d)] == k + 1
  }

  /** No two nodes of a graph are the same variable or the same gate. */
  lemma HashConsed(nodes: seq<Node>, vars: map<int, nat>, gates: map<(Edge, Edge), nat>, j: nat, k: nat)
    requires Indexed(nodes, vars, gates) && j < |nodes| && k < |nodes|
    requires nodes[j] == nodes[k] || (nodes[j].Gate? && nodes[k].Gate?
               && nodes[j].edge1 == nodes[k].edge2 && nodes[j].edge2 == nodes[k].edge1)
    ensures j == k
  {
    assert Registered(nodes, vars, gates, j) && Registered(nodes, vars, gates, k);
  }

  class Graph {
    var nodes: seq<Node>
    var varHashMap: map<int, nat>
    var andHashMap: map<(Edge, Edge), nat>

    constructor ()
      ensures Valid() && nodes == []
    {
      nodes, varHashMap, andHashMap := [], map[], map[];
    }

    ghost predicate Valid()
      reads this
    {
      Layered(nodes) && Indexed(nodes, varHashMap, andHashMap)
    }

    method CreateVar(variable: int) returns (r: Edge)
      requires Valid() && variable > 0
      modifies this
      ensures Valid() && old(nodes) <= nodes && Builds(nodes, r, Atom(variable)) && !r.negated
    {
      if variable in varHashMap {
        r := Edge(varHashMap[variable], false);
      } else {
        AddNode(nodes, varHashMap, andHashMap, Variable(variable));
        nodes := nodes + [Variable(variable)];
        varHashMap := varHashMap[variable := |nodes|];
        r := Edge(|nodes|, false);
      }
    }

    method CreateLiteral(literal: Lit) returns (r: Edge)
      requires Valid()
      modifies this
      ensures Valid() && old(nodes) <= nodes && Builds(nodes, r, OfLiteral(literal))
    {
      hide Indexed, Layered, Means;
      r := CreateVar(Var(literal));
      if literal < 0 {
        NegateBuilds(nodes, r, Atom(Var(literal)));
        r := Negate(r);
      }
    }

    method CreateAnd(edge1: Edge, edge2: Edge) returns (r: Edge)
      requires Valid() && edge1.node <= |nodes| && edge2.node <= |nodes|
      modifies this
      ensures Valid() && old(nodes) <= nodes
      ensures Builds(nodes, r, And(Denote(old(nodes), edge1), Denote(old(nodes), edge2)))
      ensures edge1 == FALSE || edge2 == FALSE ==> r == FALSE
      ensures edge1 == TRUE ==> r == edge2
      ensures edge2 == TRUE || edge1 == edge2 ==> r == edge1
      ensures edge1 == Negate(edge2) ==> r == FALSE
      ensures nodes == old(nodes) || nodes == old(nodes) + [Gate(edge1, edge2)]
    {
      hide Indexed, Layered, Means;
      AndIdentities(nodes, edge1, edge2);
      if edge1 == FALSE || edge2 == FALSE {
        return FALSE;
      }
      if edge1 == TRUE {
        return edge2;
      }
      if edge2 == TRUE {
        return edge1;
      }
      if edge1 == edge2 {
        return edge1;
      }
      if edge1 == Negate(edge2) {
        return FALSE;
      }
      var pair := Sorted(edge1, edge2);
      if pair in andHashMap {
        FoundGate(nodes, varHashMap, andHashMap, edge1, edge2);
        return Edge(andHashMap[pair], false);
      }
      AddNode(nodes, varHashMap, andHashMap, Gate(edge1, edge2));
      nodes := nodes + [Gate(edge1, edge2)];
      andHashMap := andHashMap[pair := |nodes|];
      return Edge(|nodes|, false);
    }

    method CreateOr(edge1: Edge, edge2: Edge) returns (r: Edge)
      requires Valid() && edge1.node <= |nodes| && edge2.node <= |nodes|
      modifies this
      ensures Valid() && old(nodes) <= nodes
      ensures Builds(nodes, r, Or(Denote(old(nodes), edge1), Denote(old(nodes), edge2)))
    {
      hide Indexed, Layered, Means;
      ghost var f, g := Denote(nodes, edge1), Denote(nodes, edge2);
      ghost var f1, g1 := Denote(nodes, Negate(edge1)), Denote(nodes, Negate(edge2));
      DenoteNegate(nodes, edge1);
      DenoteNegate(nodes, edge2);
      MeansAnd(f1, g1, Not(f), Not(g));
      r := CreateAnd(Negate(edge1), Negate(edge2));
      BuildsMeans(nodes, r, And(f1, g1), And(Not(f), Not(g)));
      NegateBuilds(nodes, r, And(Not(f), Not(g)));
      r := Negate(r);
    }

    /** Conjunction of a vector by tree reduction. */
    method CreateAndAll(edges0: seq<Edge>) returns (r: Edge)
      requires Valid() && InRange(nodes, edges0)
      modifies this
      ensures Valid() && old(nodes) <= nodes
      ensures Builds(nodes, r, Conj(Denotes(old(nodes), edges0)))
    {
      hide Indexed, Layered, Means, Conj;
      var edges := edges0;
      ghost var fs := Denotes(nodes, edges);
      MeansItself(Conj(fs));
      if |edges| == 0 {
        NoConjuncts();
        return TRUE;
      }
      while |edges| > 1
        invariant Valid() && old(nodes) <= nodes && InRange(nodes, edges) && |edges| > 0
        invariant Means(Conj(Denotes(nodes, edges)), Conj(fs))
        decreases |edges|
      {
        ghost var gs := Denotes(nodes, edges);
        edges := ReducePairs(edges);
        MeansTrans(Conj(Denotes(nodes, edges)), Conj(gs), Conj(fs));
      }
      OneConjunct(Denote(nodes, edges[0]), Denotes(nodes, edges), Conj(fs));
      return edges[0];
    }

    /** One round of the tree reduction: neighbours are joined. */
    method ReducePairs(edges: seq<Edge>) returns (tempEdges: seq<Edge>)
      requires Valid() && InRange(nodes, edges) && |edges| > 1
      modifies this
      ensures Valid() && old(nodes) <= nodes && InRange(nodes, tempEdges) && 0 < |tempEdges| < |edges|
      ensures Means(Conj(Denotes(nodes, tempEdges)), Conj(Denotes(old(nodes), edges)))
    {
      hide Indexed, Layered, Means, Conj;
      tempEdges := [];
      var index := 0;
      ghost var gs := Denotes(nodes, edges);
      MeansItself(Conj([]));
      assert Denotes(nodes, []) == [] && gs[..0] == [];
      while index + 1 < |edges|
        invariant Valid() && old(nodes) <= nodes && InRange(nodes, tempEdges) && InRange(nodes, edges)
        invariant index <= |edges| && index == 2 * |tempEdges| && Denotes(nodes, edges) == gs
        invariant Means(Conj(Denotes(nodes, tempEdges)), Conj(gs[..index]))
      {
        ghost var before, ts := nodes, Denotes(nodes, tempEdges);
        var e := CreateAnd(edges[index], edges[index + 1]);
        DenotesStable(before, nodes, edges);
        DenotesStable(before, nodes, tempEdges);
        PairStep(ts, Denote(nodes, e), gs, index);
        tempEdges := tempEdges + [e];
        assert Denotes(nodes, tempEdges) == ts + [Denote(nodes, e)];
        index := index + 2;
      }
      if |edges| % 2 == 1 {
        ghost var ts := Denotes(nodes, tempEdges);
        OddStep(ts, gs, index);
        tempEdges := tempEdges + [edges[|edges| - 1]];
        assert Denotes(nodes, tempEdges) == ts + [gs[index]];
      } else {
        assert gs[..index] == gs;
      }
    }

    method CreateOrAll(edges0: seq<Edge>) returns (r: Edge)
      requires Valid() && InRange(nodes, edges0)
      modifies this
      ensures Valid() && old(nodes) <= nodes
      ensures Builds(nodes, r, Disj(Denotes(old(nodes), edges0)))
    {
      hide Indexed, Layered, Means, Conj;
      var edges := edges0;
      for i := 0 to |edges|
        invariant nodes == old(nodes) && Valid() && |edges| == |edges0|
        invariant forall k :: 0 <= k < |edges| ==> edges[k] == if k < i then Negate(edges0[k]) else edges0[k]
      {
        edges := edges[i := Negate(edges[i])];
      }
      ghost var fs := Denotes(nodes, edges0);
      forall i | 0 <= i < |edges|
        ensures Means(Denotes(nodes, edges)[i], Nots(fs)[i])
      {
        DenoteNegate(nodes, edges0[i]);
      }
      ghost var gs := Denotes(nodes, edges);
      ConjMeans(gs, Nots(fs));
      r := CreateAndAll(edges);
      BuildsMeans(nodes, r, Conj(gs), Conj(Nots(fs)));
      NegateBuilds(nodes, r, Conj(Nots(fs)));
      r := Negate(r);
    }

    /** The nodes that are variables keep their numbers. */
    method ExternalVariables() returns (nodeToVar: map<nat, int>)
      requires Valid()
      ensures forall k :: k in nodeToVar <==> 0 <= k < |nodes| && nodes[k].Variable?
      ensures forall k :: k in nodeToVar ==> nodeToVar[k] == nodes[k].variable
    {
      nodeToVar := map[];
      for nodeIndex := 0 to |nodes|
        invariant forall k :: k in nodeToVar <==> 0 <= k < nodeIndex && nodes[k].Variable?
        invariant forall k :: k in nodeToVar ==> nodeToVar[k] == nodes[k].variable
      {
        if nodes[nodeIndex].Variable? {
          nodeToVar := nodeToVar[nodeIndex := nodes[nodeIndex].variable];
        }
      }
    }

    /** The stack walk of `create_cnf`: both inputs of a gate get their numbers
        before the gate itself. */
    method NumberGates(rootIndex: nat, nextFreeIndex0: int, ghost base: int)
      returns (nodeToVar: map<nat, int>, cnf: seq<Clause>, nextFreeIndex: int)
      requires Valid() && rootIndex < |nodes| && nodes[rootIndex].Gate? && Below(nodes, rootIndex, base)
      requires 0 < base <= nextFreeIndex0
      ensures Numbered(nodes, nodeToVar, base, nextFreeIndex0, nextFreeIndex) && rootIndex in nodeToVar
      ensures DefinesGates(nodes, nodeToVar, cnf) && VarsIn(cnf, base, nextFreeIndex0, nextFreeIndex)
    {
      hide Indexed, Layered, Means, Defines, SatAll, Numbered, DefinesGates, VarsIn, Unnumbered, Below;
      nodeToVar := ExternalVariables();
      nextFreeIndex := nextFreeIndex0;
      cnf := [];
      NothingDefined(nodes, nodeToVar, base, nextFreeIndex);
      var pending: seq<nat> := [rootIndex];
      while |pending| > 0
        invariant nextFreeIndex0 <= nextFreeIndex && Numbered(nodes, nodeToVar, base, nextFreeIndex0, nextFreeIndex)
        invariant DefinesGates(nodes, nodeToVar, cnf) && VarsIn(cnf, base, nextFreeIndex0, nextFreeIndex)
        invariant Waiting(nodes, nodeToVar, pending, base)
        invariant rootIndex in nodeToVar || (|pending| > 0 && pending[0] == rootIndex)
        decreases Unnumbered(nodes, nodeToVar), if |pending| > 0 then pending[|pending| - 1] + 1 else 0
      {
        var nodeIndex := pending[|pending| - 1];
        if nodeIndex in nodeToVar {
          assert false; // no node on the stack has a number yet
        }
        LayeredAt(nodes, nodeIndex);
        ChildrenBelow(nodes, nodeIndex, base);
        var edge1, edge2 := nodes[nodeIndex].edge1, nodes[nodeIndex].edge2;
        if edge1.node - 1 !in nodeToVar {
          UnnumberedGate(nodes, nodeToVar, base, nextFreeIndex0, nextFreeIndex, edge1.node - 1);
          pending := pending + [edge1.node - 1];
        } else if edge2.node - 1 !in nodeToVar {
          UnnumberedGate(nodes, nodeToVar, base, nextFreeIndex0, nextFreeIndex, edge2.node - 1);
          pending := pending + [edge2.node - 1];
        } else {
          pending := pending[..|pending| - 1];
          NumberPositive(nodes, nodeToVar, base, nextFreeIndex0, nextFreeIndex);
          var tseitinVar: Lit := nextFreeIndex;
          nextFreeIndex := nextFreeIndex + 1;
          var litEdge1: Lit := nodeToVar[edge1.node - 1] * if edge1.negated then -1 else 1;
          var litEdge2: Lit := nodeToVar[edge2.node - 1] * if edge2.negated then -1 else 1;
          GateNumbered(nodes, nodeToVar, base, nextFreeIndex0, tseitinVar, nodeIndex);
          GateDefined(nodes, nodeToVar, cnf, base, nextFreeIndex0, nodeIndex, tseitinVar, litEdge1, litEdge2);
          nodeToVar := nodeToVar[nodeIndex := tseitinVar];
          cnf := cnf + [[Neg(tseitinVar), litEdge1]];
          cnf := cnf + [[Neg(tseitinVar), litEdge2]];
          cnf := cnf + [[tseitinVar, Neg(litEdge1), Neg(litEdge2)]];
        }
      }
    }

    /** `create_cnf`: constants and single literals need no definitions; otherwise
        the gates below the root get numbers in an order found with a stack. */
    method CreateCnf(root: Edge, nextFreeIndex0: int, ghost base: int)
      returns (cnfType: CnfType, cnf: seq<Clause>, nextFreeIndex: int)
      requires Valid() && root.node <= |nodes| && 0 < base <= nextFreeIndex0
      requires SupportBelow(Denote(nodes, root), base)
      ensures nextFreeIndex0 <= nextFreeIndex && cnfType != NoCnf
      ensures (cnfType != Normal ==> nextFreeIndex == nextFreeIndex0)
      ensures Encodes(cnfType, cnf, base, nextFreeIndex0, nextFreeIndex, Denote(nodes, root))
    {
      hide Indexed, Layered, Means, Defines, SatAll, Numbered, DefinesGates, VarsIn, Unnumbered, Below;
      nextFreeIndex := nextFreeIndex0;
      if root.node == 0 {
        ConstantEdges(nodes, root);
        if root == FALSE {
          return Constant0, [[]], nextFreeIndex;
        }
        return Constant1, [], nextFreeIndex;
      }
      LayeredAt(nodes, root.node - 1);
      RootBelow(nodes, root, base);
      var node := nodes[root.node - 1];
      if node.Variable? {
        var rootLiteral := node.variable * if root.negated then -1 else 1;
        VariableEdge(nodes, root, rootLiteral, base, nextFreeIndex);
        assert [[rootLiteral as Lit]][..0] == [];
        return Normal, [[rootLiteral]], nextFreeIndex;
      }
      var nodeToVar;
      nodeToVar, cnf, nextFreeIndex := NumberGates(root.node - 1, nextFreeIndex0, base);
      NumberPositive(nodes, nodeToVar, base, nextFreeIndex0, nextFreeIndex);
      var rootLiteral: Lit := nodeToVar[root.node - 1] * if root.negated then -1 else 1;
      RootDefined(nodes, nodeToVar, cnf, base, nextFreeIndex0, nextFreeIndex, root, rootLiteral);
      assert (cnf + [[rootLiteral]])[..|cnf|] == cnf;
      cnf := cnf + [[rootLiteral]];
      cnfType := Normal;
    }
  }

  // ------------------------------------------------------ conversion to clauses

  datatype CnfType = NoCnf | Constant0 | Constant1 | Normal

  /** `m` with the variables from `lo` to below `hi` replaced by those in `t`. */
  function Ext(m: Model, t: set<int>, lo: int, hi: int): Model {
    (set v | v in m && !(lo <= v < hi)) + t
  }

  ghost predicate Within(t: set<int>, lo: int, hi: int) {
    forall v :: v in t ==> lo <= v < hi
  }

  /** Whatever the other variables are, the clauses have exactly one solution for
      the variables from `lo` to below `hi`, and in it `l` has the value of `f`. */
  ghost predicate Defines(defs: seq<Clause>, l: Lit, base: int, lo: int, hi: int, f: Form) {
    && (forall m: Model :: HasExtension(defs, m, lo, hi))
    && (forall m: Model :: OneExtension(defs, m, lo, hi))
    && (forall m: Model :: SatAll(defs, m) ==> (True(l, m) <==> Holds(f, m)))
    && VarsIn(defs, base, lo, hi) && (Var(l) < base || lo <= Var(l) < hi) && base <= lo <= hi
    && SupportBelow(f, base)
  }

  ghost predicate HasExtension(defs: seq<Clause>, m: Model, lo: int, hi: int) {
    exists t :: IsExtension(defs, m, t, lo, hi)
  }

  ghost predicate OneExtension(defs: seq<Clause>, m: Model, lo: int, hi: int) {
    forall t, u :: IsExtension(defs, m, t, lo, hi) && IsExtension(defs, m, u, lo, hi) ==> t == u
  }

  ghost predicate IsExtension(defs: seq<Clause>, m: Model, t: set<int>, lo: int, hi: int) {
    Within(t, lo, hi) && SatAll(defs, Ext(m, t, lo, hi))
  }

  /** The clauses mention external variables and those from `lo` to below `hi`. */
  ghost predicate VarsIn(defs: seq<Clause>, base: int, lo: int, hi: int) {
    forall c, l :: c in defs && l in c ==> Var(l) < base || lo <= Var(l) < hi
  }

  /** The clauses, with their type, represent `f`: the last one of a normal form
      is the unit clause of the literal that stands for `f`. */
  ghost predicate Encodes(t: CnfType, cnf: seq<Clause>, base: int, lo: int, hi: int, f: Form) {
    match t
    case NoCnf => false
    case Constant0 => cnf == [[]] && forall m: Model :: !Holds(f, m)
    case Constant1 => cnf == [] && forall m: Model :: Holds(f, m)
    case Normal => |cnf| > 0 && |cnf[|cnf|-1]| == 1 && Defines(cnf[..|cnf|-1], cnf[|cnf|-1][0], base, lo, hi, f)
  }

  /** External variables keep their numbers, gates have their own, all of `lo` to
      below `hi` are used. */
  ghost predicate Numbered(nodes: seq<Node>, nodeToVar: map<nat, int>, base: int, lo: int, hi: int) {
    && (forall k :: 0 <= k < |nodes| && nodes[k].Variable? ==>
          k in nodeToVar && nodeToVar[k] == nodes[k].variable && 0 < nodeToVar[k])
    && (forall k :: k in nodeToVar ==>
          k < |nodes| && (nodes[k].Gate? ==> lo <= nodeToVar[k] < hi && Below(nodes, k, base)))
    && (forall j, k ::
          j in nodeToVar && k in nodeToVar && nodes[j].Gate? && nodes[k].Gate? && nodeToVar[j] == nodeToVar[k] ==>
            j == k)
    && (forall v :: lo <= v < hi ==> NumberUsed(nodes, nodeToVar, v))
    && 0 < base <= lo <= hi
  }

  ghost predicate SupportBelow(f: Form, base: int) {
    forall v :: v in Support(f) ==> v < base
  }

  /** Node `k` depends on external variables below `base` only. */
  ghost predicate Below(nodes: seq<Node>, k: nat, base: int) {
    Layered(nodes) && k < |nodes| && SupportBelow(Denote(nodes, Edge(k + 1, false)), base)
  }

  lemma RootBelow(nodes: seq<Node>, root: Edge, base: int)
    requires Layered(nodes) && 0 < root.node <= |nodes| && SupportBelow(Denote(nodes, root), base)
    ensures Below(nodes, root.node - 1, base)
    ensures nodes[root.node - 1].Variable? ==> nodes[root.node - 1].variable < base
  {
    var e := Edge(root.node, false);
    assert root == e || (Negate(root) == e && Denote(nodes, root) == Not(Denote(nodes, e)));
    assert Support(Not(Denote(nodes, e))) == Support(Denote(nodes, e));
    VariableBelow(nodes, root.node - 1, base);
  }

  lemma VariableBelow(nodes: seq<Node>, k: nat, base: int)
    requires Layered(nodes) && k < |nodes|
    ensures nodes[k].Variable? && Below(nodes, k, base) ==> nodes[k].variable < base
  {
    if nodes[k].Variable? {
      assert Support(Denote(nodes, Edge(k + 1, false))) == {nodes[k].variable};
    }
  }

  lemma ChildrenBelow(nodes: seq<Node>, k: nat, base: int)
    requires Below(nodes, k, base) && nodes[k].Gate? && NodeAt(nodes, k)
    ensures Below(nodes, nodes[k].edge1.node - 1, base) && Below(nodes, nodes[k].edge2.node - 1, base)
  {
    var e1, e2 := nodes[k].edge1, nodes[k].edge2;
    var f := Denote(nodes, Edge(k + 1, false));
    assert f == And(Denote(nodes, e1), Denote(nodes, e2));
    assert e1 == Edge(e1.node, false) || Negate(e1) == Edge(e1.node, false);
    assert e2 == Edge(e2.node, false) || Negate(e2) == Edge(e2.node, false);
    assert && Support(Denote(nodes, Edge(e1.node, false))) <= Support(f)
           && Support(Denote(nodes, Edge(e2.node, false))) <= Support(f);
  }

  ghost predicate NumberUsed(nodes: seq<Node>, nodeToVar: map<nat, int>, v: int) {
    exists k :: k in nodeToVar && k < |nodes| && nodes[k].Gate? && nodeToVar[k] == v
  }

  /** Every numbered node has the value of what it stands for. */
  ghost predicate Follows(nodes: seq<Node>, nodeToVar: map<nat, int>, m: Model)
    requires Layered(nodes)
  {
    forall k :: k in nodeToVar && k < |nodes| ==> (nodeToVar[k] in m <==> Holds(Denote(nodes, Edge(k + 1, false)), m))
  }

  ghost predicate DefinesGates(nodes: seq<Node>, nodeToVar: map<nat, int>, cnf: seq<Clause>) {
    Layered(nodes) && forall m: Model :: SatAll(cnf, m) <==> Follows(nodes, nodeToVar, m)
  }

  /** The stack: gates without a number, each below the one before. */
  ghost predicate Waiting(nodes: seq<Node>, nodeToVar: map<nat, int>, pending: seq<nat>, base: int) {
    && (forall i :: 0 <= i < |pending| ==>
         pending[i] < |nodes| && nodes[pending[i]].Gate? && pending[i] !in nodeToVar && Below(nodes, pending[i], base))
    && (forall i, j :: 0 <= i < j < |pending| ==> pending[j] < pending[i])
  }

  ghost function UnnumberedNodes(nodes: seq<Node>, nodeToVar: map<nat, int>): set<nat> {
    set k: nat | k < |nodes| && k !in nodeToVar
  }

  ghost function Unnumbered(nodes: seq<Node>, nodeToVar: map<nat, int>): nat {
    |UnnumberedNodes(nodes, nodeToVar)|
  }

  lemma VariableEdge(nodes: seq<Node>, root: Edge, l: Lit, base: int, lo: int)
    requires Layered(nodes) && 0 < root.node <= |nodes| && nodes[root.node - 1].Variable?
    requires 0 < nodes[root.node - 1].variable < base <= lo
    requires l == nodes[root.node - 1].variable * if root.negated then -1 else 1
    ensures Defines([], l, base, lo, lo, Denote(nodes, root))
  {
    var v := nodes[root.node - 1].variable;
    var f := Denote(nodes, root);
    assert Denote(nodes, Edge(root.node, false)) == Atom(v);
    assert root == Edge(root.node, false) || Negate(root) == Edge(root.node, false);
    forall m: Model
      ensures HasExtension([], m, lo, lo) && OneExtension([], m, lo, lo) && (True(l, m) <==> Holds(f, m))
    {
      assert IsExtension([], m, {}, lo, lo);
      forall t | Within(t, lo, lo)
        ensures t == {}
      {
        assert forall x :: x !in t;
      }
      assert Holds(Atom(v), m) <==> v in m;
    }
    assert Support(Atom(v)) == {v};
  }

  lemma NothingDefined(nodes: seq<Node>, nodeToVar: map<nat, int>, base: int, lo: int)
    requires Layered(nodes) && 0 < base <= lo
    requires forall k :: k in nodeToVar <==> 0 <= k < |nodes| && nodes[k].Variable?
    requires forall k :: k in nodeToVar ==> nodeToVar[k] == nodes[k].variable
    ensures Numbered(nodes, nodeToVar, base, lo, lo) && DefinesGates(nodes, nodeToVar, []) && VarsIn([], base, lo, lo)
  {
    forall k | 0 <= k < |nodes| && nodes[k].Variable?
      ensures nodes[k].variable > 0
    {
      assert NodeAt(nodes, k);
    }
    forall m: Model, k | k in nodeToVar
      ensures nodeToVar[k] in m <==> Holds(Denote(nodes, Edge(k + 1, false)), m)
    {
      assert Denote(nodes, Edge(k + 1, false)) == Atom(nodes[k].variable);
    }
  }

  lemma UnnumberedGate(nodes: seq<Node>, nodeToVar: map<nat, int>, base: int, lo: int, hi: int, k: nat)
    requires Numbered(nodes, nodeToVar, base, lo, hi) && k < |nodes| && k !in nodeToVar
    ensures nodes[k].Gate?
  {
  }

  lemma NumberPositive(nodes: seq<Node>, nodeToVar: map<nat, int>, base: int, lo: int, hi: int)
    requires Numbered(nodes, nodeToVar, base, lo, hi)
    ensures 0 < base <= lo <= hi
    ensures forall k :: k in nodeToVar ==> k < |nodes| && 0 < nodeToVar[k]
    ensures forall k :: k in nodeToVar ==>
      if nodes[k].Gate? then lo <= nodeToVar[k] < hi else nodeToVar[k] == nodes[k].variable
  {
  }

  lemma GateNumbered(nodes: seq<Node>, nodeToVar: map<nat, int>, base: int, lo: int, v: int, k: nat)
    requires Numbered(nodes, nodeToVar, base, lo, v) && k < |nodes| && nodes[k].Gate? && k !in nodeToVar
    requires Below(nodes, k, base)
    ensures Numbered(nodes, nodeToVar[k := v], base, lo, v + 1)
    ensures Unnumbered(nodes, nodeToVar[k := v]) < Unnumbered(nodes, nodeToVar)
  {
    hide Unnumbered;
    var now := nodeToVar[k := v];
    forall w | lo <= w < v + 1
      ensures NumberUsed(nodes, now, w)
    {
      if w < v {
        assert NumberUsed(nodes, nodeToVar, w);
        var j :| j in nodeToVar && j < |nodes| && nodes[j].Gate? && nodeToVar[j] == w;
        assert j in now && now[j] == w;
      } else {
        assert k in now && now[k] == w;
      }
    }
    FewerUnnumbered(nodes, nodeToVar, k, v);
  }

  lemma FewerUnnumbered(nodes: seq<Node>, nodeToVar: map<nat, int>, k: nat, v: int)
    requires k < |nodes| && k !in nodeToVar
    ensures Unnumbered(nodes, nodeToVar[k := v]) < Unnumbered(nodes, nodeToVar)
  {
    assert UnnumberedNodes(nodes, nodeToVar[k := v]) == UnnumberedNodes(nodes, nodeToVar) - {k};
  }

  /** An edge literal has the value of the edge. */
  lemma EdgeValue(nodes: seq<Node>, nodeToVar: map<nat, int>, e: Edge, l: Lit, m: Model)
    requires Layered(nodes) && 0 < e.node <= |nodes| && e.node - 1 in nodeToVar && nodeToVar[e.node - 1] > 0
    requires l == nodeToVar[e.node - 1] * if e.negated then -1 else 1
    requires Follows(nodes, nodeToVar, m)
    ensures True(l, m) <==> Holds(Denote(nodes, e), m)
  {
    var k := e.node - 1;
    assert nodeToVar[k] in m <==> Holds(Denote(nodes, Edge(k + 1, false)), m);
    assert Negate(e) == Edge(k + 1, !e.negated);
  }

  lemma GateClauses(v: Lit, l1: Lit, l2: Lit, m: Model)
    requires v > 0
    ensures SatClause([Neg(v), l1], m) && SatClause([Neg(v), l2], m) && SatClause([v, Neg(l1), Neg(l2)], m)
        <==> (v in m <==> True(l1, m) && True(l2, m))
  {
    var a, b, c := [Neg(v), l1], [Neg(v), l2], [v, Neg(l1), Neg(l2)];
    assert SatClause(a, m) <==> True(a[0], m) || True(a[1], m);
    assert SatClause(b, m) <==> True(b[0], m) || True(b[1], m);
    assert SatClause(c, m) <==> True(c[0], m) || True(c[1], m) || True(c[2], m);
  }

  lemma SatAppend(cnf: seq<Clause>, c: Clause, m: Model)
    ensures SatAll(cnf + [c], m) <==> SatAll(cnf, m) && SatClause(c, m)
  {
    assert c in cnf + [c];
    assert forall d :: d in cnf ==> d in cnf + [c];
  }

  /** The three clauses of a gate give its number the value of the conjunction. */
  lemma GateDefined(nodes: seq<Node>, nodeToVar: map<nat, int>, cnf: seq<Clause>, base: int, lo: int, k: nat, v: Lit,
        l1: Lit, l2: Lit)
    requires DefinesGates(nodes, nodeToVar, cnf) && Numbered(nodes, nodeToVar, base, lo, v) && VarsIn(cnf, base, lo, v)
    requires v > 0
    requires k < |nodes| && nodes[k].Gate? && k !in nodeToVar && Below(nodes, k, base)
    requires 0 < nodes[k].edge1.node <= k && 0 < nodes[k].edge2.node <= k
    requires nodes[k].edge1.node - 1 in nodeToVar && nodes[k].edge2.node - 1 in nodeToVar
    requires l1 == nodeToVar[nodes[k].edge1.node - 1] * if nodes[k].edge1.negated then -1 else 1
    requires l2 == nodeToVar[nodes[k].edge2.node - 1] * if nodes[k].edge2.negated then -1 else 1
    ensures var now := cnf + [[Neg(v), l1]] + [[Neg(v), l2]] + [[v, Neg(l1), Neg(l2)]];
            DefinesGates(nodes, nodeToVar[k := v], now) && VarsIn(now, base, lo, v + 1)
  {
    hide Numbered, SatAll, SatClause, Below;
    NumberPositive(nodes, nodeToVar, base, lo, v);
    LayeredAt(nodes, k);
    ChildrenBelow(nodes, k, base);
    VariableBelow(nodes, nodes[k].edge1.node - 1, base);
    VariableBelow(nodes, nodes[k].edge2.node - 1, base);
    var now := cnf + [[Neg(v), l1]] + [[Neg(v), l2]] + [[v, Neg(l1), Neg(l2)]];
    var e1, e2 := nodes[k].edge1, nodes[k].edge2;
    forall m: Model
      ensures SatAll(now, m) <==> Follows(nodes, nodeToVar[k := v], m)
    {
      SatAppend(cnf, [Neg(v), l1], m);
      SatAppend(cnf + [[Neg(v), l1]], [Neg(v), l2], m);
      SatAppend(cnf + [[Neg(v), l1]] + [[Neg(v), l2]], [v, Neg(l1), Neg(l2)], m);
      GateClauses(v, l1, l2, m);
      FollowsMore(nodes, nodeToVar, k, v, m);
      if Follows(nodes, nodeToVar, m) {
        EdgeValue(nodes, nodeToVar, e1, l1, m);
        EdgeValue(nodes, nodeToVar, e2, l2, m);
        GateHolds(nodes, k, m);
      }
    }
  }

  lemma FollowsMore(nodes: seq<Node>, nodeToVar: map<nat, int>, k: nat, v: int, m: Model)
    requires Layered(nodes) && k < |nodes| && k !in nodeToVar
    ensures Follows(nodes, nodeToVar[k := v], m) <==>
      Follows(nodes, nodeToVar, m) && (v in m <==> Holds(Denote(nodes, Edge(k + 1, false)), m))
  {
    hide Denote, Layered;
    var now := nodeToVar[k := v];
    if Follows(nodes, now, m) {
      assert k in now && now[k] == v;
      forall j | j in nodeToVar && j < |nodes|
        ensures nodeToVar[j] in m <==> Holds(Denote(nodes, Edge(j + 1, false)), m)
      {
        assert j in now && now[j] == nodeToVar[j];
      }
    }
  }

  lemma GateHolds(nodes: seq<Node>, k: nat, m: Model)
    requires Layered(nodes) && k < |nodes| && nodes[k].Gate? && nodes[k].edge1.node <= k && nodes[k].edge2.node <= k
    ensures Holds(Denote(nodes, Edge(k + 1, false)), m) <==>
      Holds(Denote(nodes, nodes[k].edge1), m) && Holds(Denote(nodes, nodes[k].edge2), m)
  {
    assert Denote(nodes, Edge(k + 1, false)) == And(Denote(nodes, nodes[k].edge1), Denote(nodes, nodes[k].edge2));
  }

  /** The solution for the numbers of the gates. */
  ghost function GateValues(nodes: seq<Node>, nodeToVar: map<nat, int>, m: Model): set<int>
    requires Layered(nodes)
  {
    set k |
      k in nodeToVar && k < |nodes| && nodes[k].Gate? && Holds(Denote(nodes, Edge(k + 1, false)), m) :: nodeToVar[k]
  }

  /** What a node stands for does not depend on the numbers of the gates. */
  lemma SameOutside(nodes: seq<Node>, nodeToVar: map<nat, int>, base: int, lo: int, hi: int, m: Model, t: set<int>,
        k: nat)
    requires Below(nodes, k, base) && base <= lo && Within(t, lo, hi)
    ensures Holds(Denote(nodes, Edge(k + 1, false)), Ext(m, t, lo, hi)) <==> Holds(Denote(nodes, Edge(k + 1, false)), m)
  {
    SupportDecides(Denote(nodes, Edge(k + 1, false)), m, Ext(m, t, lo, hi));
  }

  lemma FollowsValues(nodes: seq<Node>, nodeToVar: map<nat, int>, base: int, lo: int, hi: int, m: Model, t: set<int>)
    requires Layered(nodes) && Numbered(nodes, nodeToVar, base, lo, hi) && Within(t, lo, hi)
    requires Follows(nodes, nodeToVar, Ext(m, t, lo, hi))
    ensures t == GateValues(nodes, nodeToVar, m)
  {
    hide Denote, Layered;
    var n := Ext(m, t, lo, hi);
    forall k | k in nodeToVar && k < |nodes| && nodes[k].Gate?
      ensures nodeToVar[k] in t <==> Holds(Denote(nodes, Edge(k + 1, false)), m)
    {
      SameOutside(nodes, nodeToVar, base, lo, hi, m, t, k);
      assert nodeToVar[k] in n <==> nodeToVar[k] in t;
    }
    forall v
      ensures v in t <==> v in GateValues(nodes, nodeToVar, m)
    {
      if lo <= v < hi {
        assert NumberUsed(nodes, nodeToVar, v);
      }
    }
  }

  lemma ValuesFollow(nodes: seq<Node>, nodeToVar: map<nat, int>, base: int, lo: int, hi: int, m: Model, t: set<int>)
    requires Layered(nodes) && Numbered(nodes, nodeToVar, base, lo, hi) && t == GateValues(nodes, nodeToVar, m)
    ensures Within(t, lo, hi) && Follows(nodes, nodeToVar, Ext(m, t, lo, hi))
  {
    hide Layered;
    var n := Ext(m, t, lo, hi);
    forall k | k in nodeToVar && k < |nodes|
      ensures nodeToVar[k] in n <==> Holds(Denote(nodes, Edge(k + 1, false)), n)
    {
      if nodes[k].Variable? {
        assert Denote(nodes, Edge(k + 1, false)) == Atom(nodes[k].variable);
      } else {
        SameOutside(nodes, nodeToVar, base, lo, hi, m, t, k);
        assert nodeToVar[k] in n <==> nodeToVar[k] in t;
      }
    }
  }

  lemma RootDefined(nodes: seq<Node>, nodeToVar: map<nat, int>, cnf: seq<Clause>, base: int, lo: int, hi: int,
        root: Edge, l: Lit)
    requires DefinesGates(nodes, nodeToVar, cnf) && Numbered(nodes, nodeToVar, base, lo, hi)
    requires VarsIn(cnf, base, lo, hi)
    requires 0 < root.node <= |nodes| && root.node - 1 in nodeToVar && Below(nodes, root.node - 1, base)
    requires SupportBelow(Denote(nodes, root), base)
    requires l == nodeToVar[root.node - 1] * if root.negated then -1 else 1
    ensures Defines(cnf, l, base, lo, hi, Denote(nodes, root))
  {
    hide GateValues, Follows, Numbered, Below;
    NumberPositive(nodes, nodeToVar, base, lo, hi);
    VariableBelow(nodes, root.node - 1, base);
    var f := Denote(nodes, root);

    forall m: Model
      ensures HasExtension(cnf, m, lo, hi) && OneExtension(cnf, m, lo, hi)
    {
      var values := GateValues(nodes, nodeToVar, m);
      ValuesFollow(nodes, nodeToVar, base, lo, hi, m, values);
      assert IsExtension(cnf, m, values, lo, hi);
      forall t | IsExtension(cnf, m, t, lo, hi)
        ensures t == values
      {
        FollowsValues(nodes, nodeToVar, base, lo, hi, m, t);
      }
    }
    forall m: Model | SatAll(cnf, m)
      ensures True(l, m) <==> Holds(f, m)
    {
      EdgeValue(nodes, nodeToVar, root, l, m);
    }
  }

  lemma LayeredAt(nodes: seq<Node>, k: nat)
    requires Layered(nodes) && k < |nodes|
    ensures NodeAt(nodes, k)
  {
  }

  lemma ConstantEdges(nodes: seq<Node>, e: Edge)
    requires Layered(nodes) && e.node == 0
    ensures e == TRUE || e == FALSE
    ensures Denote(nodes, e) == if e == TRUE then Top else Not(Top)
    ensures forall m: Model :: Holds(Denote(nodes, e), m) <==> e == TRUE
  {
    forall m: Model
      ensures Holds(Not(Top), m) == !Holds(Top, m)
    {
    }
  }

  lemma NoConjuncts()
    ensures Means(Top, Conj([])) && Denote([], TRUE) == Top
  {
  }

  lemma OneConjunct(f: Form, fs: seq<Form>, g: Form)
    requires fs == [f] && Means(Conj(fs), g)
    ensures Means(f, g)
  {
    assert Conj(fs) == And(Conj(fs[..0]), f) && fs[..0] == [];
    SimpleAnds(f, Top);
    MeansTrans(f, And(Top, f), g);
  }

  function Denotes(nodes: seq<Node>, es: seq<Edge>): (fs: seq<Form>)
    requires Layered(nodes) && InRange(nodes, es)
    ensures |fs| == |es|
  {
    seq(|es|, i requires 0 <= i < |es| => Denote(nodes, es[i]))
  }

  predicate InRange(nodes: seq<Node>, es: seq<Edge>) {
    forall i :: 0 <= i < |es| ==> es[i].node <= |nodes|
  }

  lemma DenotesStable(nodes: seq<Node>, more: seq<Node>, es: seq<Edge>)
    requires Layered(nodes) && Layered(more) && nodes <= more && InRange(nodes, es)
    ensures InRange(more, es) && Denotes(more, es) == Denotes(nodes, es)
  {
    forall i | 0 <= i < |es|
      ensures Denote(more, es[i]) == Denote(nodes, es[i])
    {
      DenoteStable(nodes, more, es[i]);
    }
  }

  lemma ConjAppend(fs: seq<Form>, f: Form)
    ensures Conj(fs + [f]) == And(Conj(fs), f)
  {
    assert (fs + [f])[..|fs|] == fs;
  }

  lemma AndAssociates(f: Form, g: Form, h: Form)
    ensures Means(And(f, And(g, h)), And(And(f, g), h))
  {
    assert Support(And(f, And(g, h))) == Support(f) + Support(And(g, h));
    assert Support(And(And(f, g), h)) == Support(And(f, g)) + Support(h);
    forall m: Model
      ensures Holds(And(f, And(g, h)), m) <==> Holds(And(And(f, g), h), m)
    {
      assert Holds(And(g, h), m) <==> Holds(g, m) && Holds(h, m);
      assert Holds(And(f, g), m) <==> Holds(f, m) && Holds(g, m);
    }
  }

  /** Two conjuncts are replaced by one edge in a tree reduction. */
  lemma PairStep(ts: seq<Form>, t: Form, gs: seq<Form>, i: nat)
    requires i + 1 < |gs| && Means(Conj(ts), Conj(gs[..i])) && Means(t, And(gs[i], gs[i+1]))
    ensures Means(Conj(ts + [t]), Conj(gs[..i+2]))
  {
    hide Means;
    var c := Conj(gs[..i]);
    ConjAppend(ts, t);
    assert gs[..i+1] == gs[..i] + [gs[i]] && gs[..i+2] == gs[..i+1] + [gs[i+1]];
    ConjAppend(gs[..i], gs[i]);
    ConjAppend(gs[..i+1], gs[i+1]);
    MeansAnd(Conj(ts), t, c, And(gs[i], gs[i+1]));
    AndAssociates(c, gs[i], gs[i+1]);
    MeansTrans(And(Conj(ts), t), And(c, And(gs[i], gs[i+1])), And(And(c, gs[i]), gs[i+1]));
  }

  lemma OddStep(ts: seq<Form>, gs: seq<Form>, i: nat)
    requires i + 1 == |gs| && Means(Conj(ts), Conj(gs[..i]))
    ensures Means(Conj(ts + [gs[i]]), Conj(gs))
  {
    hide Means;
    ConjAppend(ts, gs[i]);
    assert gs == gs[..i] + [gs[i]];
    ConjAppend(gs[..i], gs[i]);
    MeansItself(gs[i]);
    MeansAnd(Conj(ts), gs[i], Conj(gs[..i]), gs[i]);
  }

  function Nots(fs: seq<Form>): seq<Form> {
    seq(|fs|, i requires 0 <= i < |fs| => Not(fs[i]))
  }

  function Disj(fs: seq<Form>): Form {
    Not(Conj(Nots(fs)))
  }

  lemma DisjHolds(fs: seq<Form>, m: Model)
    ensures Holds(Disj(fs), m) <==> exists i :: 0 <= i < |fs| && Holds(fs[i], m)
  {
    ConjHolds(Nots(fs), m);
    assert forall i :: 0 <= i < |fs| ==> Nots(fs)[i] == Not(fs[i]) && (Holds(Not(fs[i]), m) <==> !Holds(fs[i], m));
  }

  lemma DisjSupport(fs: seq<Form>)
    ensures forall v :: v in Support(Disj(fs)) <==> exists i :: 0 <= i < |fs| && v in Support(fs[i])
  {
    ConjSupport(Nots(fs));
    assert forall i :: 0 <= i < |fs| ==> Nots(fs)[i] == Not(fs[i]) && Support(Not(fs[i])) == Support(fs[i]);
  }

  lemma {:induction false} ConjMeans(fs: seq<Form>, gs: seq<Form>)
    requires |fs| == |gs| && forall i :: 0 <= i < |fs| ==> Means(fs[i], gs[i])
    ensures Means(Conj(fs), Conj(gs))
    decreases |fs|
  {
    if fs != [] {
      var n := |fs| - 1;
      ConjMeans(fs[..n], gs[..n]);
      MeansAnd(Conj(fs[..n]), fs[n], Conj(gs[..n]), gs[n]);
    }
  }

  lemma DisjMeans(fs: seq<Form>, gs: seq<Form>)
    requires |fs| == |gs| && forall i :: 0 <= i < |fs| ==> Means(fs[i], gs[i])
    ensures Means(Disj(fs), Disj(gs))
  {
    forall i | 0 <= i < |fs|
      ensures Means(Nots(fs)[i], Nots(gs)[i])
    {
      MeansNot(fs[i], gs[i]);
    }
    ConjMeans(Nots(fs), Nots(gs));
    MeansNot(Conj(Nots(fs)), Conj(Nots(gs)));
  }

  lemma AndIdentities(nodes: seq<Node>, e: Edge, d: Edge)
    requires Layered(nodes) && e.node <= |nodes| && d.node <= |nodes|
    ensures var f := And(Denote(nodes, e), Denote(nodes, d));
            && (e == FALSE || d == FALSE || e == Negate(d) ==> Builds(nodes, FALSE, f))
            && (e == TRUE || e == d ==> Builds(nodes, d, f))
            && (d == TRUE ==> Builds(nodes, e, f))
    ensures e.node == 0 ==> e == TRUE || e == FALSE
  {
    hide Means;
    assert Denote(nodes, TRUE) == Top && Denote(nodes, FALSE) == Not(Top);
    SimpleAnds(Denote(nodes, e), Top);
    SimpleAnds(Denote(nodes, d), Top);
    if e == Negate(d) {
      assert Denote(nodes, e) == Not(Denote(nodes, d)) || Denote(nodes, d) == Not(Denote(nodes, e));
    }
  }

  lemma FoundGate(nodes: seq<Node>, vars: map<int, nat>, gates: map<(Edge, Edge), nat>, e: Edge, d: Edge)
    requires Layered(nodes) && Indexed(nodes, vars, gates) && e.node <= |nodes| && d.node <= |nodes|
    requires Sorted(e, d) in gates
    ensures Builds(nodes, Edge(gates[Sorted(e, d)], false), And(Denote(nodes, e), Denote(nodes, d)))
  {
    hide Means;
    var k := gates[Sorted(e, d)] - 1;
    assert NodeAt(nodes, k);
    GateOfPair(nodes, vars, gates, e, d);
    var f, g := Denote(nodes, e), Denote(nodes, d);
    MeansItself(And(f, g));
    AndCommutes(g, f);
  }

  lemma GateOfPair(nodes: seq<Node>, vars: map<int, nat>, gates: map<(Edge, Edge), nat>, e: Edge, d: Edge)
    requires Indexed(nodes, vars, gates) && Sorted(e, d) in gates
    ensures 0 < gates[Sorted(e, d)] <= |nodes|
    ensures var n := nodes[gates[Sorted(e, d)] - 1]; n == Gate(e, d) || n == Gate(d, e)
  {
  }

  lemma AndCommutes(f: Form, g: Form)
    ensures Means(And(f, g), And(g, f))
  {
  }

  lemma NewNodeLayered(nodes: seq<Node>, n: Node)
    requires Layered(nodes)
    requires n.Variable? ==> n.variable > 0
    requires n.Gate? ==> 0 < n.edge1.node <= |nodes| && 0 < n.edge2.node <= |nodes|
    ensures Layered(nodes + [n])
  {
    var more := nodes + [n];
    forall k | 0 <= k < |more|
      ensures NodeAt(more, k)
    {
      assert k < |nodes| ==> NodeAt(nodes, k);
    }
  }

  lemma NewNodeIndexed(nodes: seq<Node>, vars: map<int, nat>, gates: map<(Edge, Edge), nat>, n: Node)
    requires Indexed(nodes, vars, gates)
    requires n.Variable? ==> n.variable !in vars
    requires n.Gate? ==> Sorted(n.edge1, n.edge2) !in gates
    ensures n.Variable? ==> Indexed(nodes + [n], vars[n.variable := |nodes| + 1], gates)
    ensures n.Gate? ==> Indexed(nodes + [n], vars, gates[Sorted(n.edge1, n.edge2) := |nodes| + 1])
  {
    var more := nodes + [n];
    var vars1 := if n.Variable? then vars[n.variable := |nodes| + 1] else vars;
    var gates1 := if n.Gate? then gates[Sorted(n.edge1, n.edge2) := |nodes| + 1] else gates;
    forall k | 0 <= k < |more|
      ensures Registered(more, vars1, gates1, k)
    {
      assert k < |nodes| ==> Registered(nodes, vars, gates, k) && more[k] == nodes[k];
    }
  }

  /** A new node is indexed, and stands for its variable or conjunction. */
  lemma AddNode(nodes: seq<Node>, vars: map<int, nat>, gates: map<(Edge, Edge), nat>, n: Node)
    requires Layered(nodes) && Indexed(nodes, vars, gates)
    requires n.Variable? ==> n.variable > 0 && n.variable !in vars
    requires n.Gate? ==>
      0 < n.edge1.node <= |nodes| && 0 < n.edge2.node <= |nodes| && Sorted(n.edge1, n.edge2) !in gates
    ensures Layered(nodes + [n])
    ensures n.Variable? ==> Indexed(nodes + [n], vars[n.variable := |nodes| + 1], gates)
    ensures n.Gate? ==> Indexed(nodes + [n], vars, gates[Sorted(n.edge1, n.edge2) := |nodes| + 1])
    ensures Builds(nodes + [n], Edge(|nodes| + 1, false),
              if n.Variable? then Atom(n.variable) else And(Denote(nodes, n.edge1), Denote(nodes, n.edge2)))
  {
    hide Indexed, Means;
    NewNodeLayered(nodes, n);
    NewNodeIndexed(nodes, vars, gates, n);
    if n.Gate? {
      DenoteStable(nodes, nodes + [n], n.edge1);
      DenoteStable(nodes, nodes + [n], n.edge2);
    }
    MeansItself(Denote(nodes + [n], Edge(|nodes| + 1, false)));
  }

  lemma NegateBuilds(nodes: seq<Node>, e: Edge, f: Form)
    requires Builds(nodes, e, f)
    ensures Builds(nodes, Negate(e), Not(f))
  {
    hide Means;
    DenoteNegate(nodes, e);
    MeansNot(Denote(nodes, e), f);
    MeansTrans(Denote(nodes, Negate(e)), Not(Denote(nodes, e)), Not(f));
  }

  lemma BuildsMeans(nodes: seq<Node>, e: Edge, f: Form, g: Form)
    requires Builds(nodes, e, f) && Means(f, g)
    ensures Builds(nodes, e, g)
  {
    MeansTrans(Denote(nodes, e), f, g);
  }

  lemma BuildsStable(nodes: seq<Node>, more: seq<Node>, e: Edge, f: Form)
    requires Builds(nodes, e, f) && nodes <= more && Layered(more)
    ensures Builds(more, e, f)
  {
    DenoteStable(nodes, more, e);
  }
}
