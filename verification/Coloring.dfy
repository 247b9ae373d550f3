/** The graph-colouring encoder of generate_benchmarks.py: its models are, one
    to one, the proper colourings of the graph. */
module Coloring {
  import opened Logic
  import opened Benchmarks

  type Edge = (nat, nat)

  /** The variable that says vertex `v` has colour `c`. */
  function ColorVar(v: nat, c: nat, k: nat): int {
    At((v - 1) * k, 1, c)
  }

  ghost predicate Edges(edges: seq<Edge>, n: nat) {
    forall e :: e in edges ==> 1 <= e.0 < e.1 <= n
  }

  ghost predicate HasColor(m: Model, k: nat, v: nat) {
    SomeOf(m, (v - 1) * k, 1, k)
  }

  ghost predicate ColorsApart(m: Model, k: nat, v: nat) {
    AtMostOneOf(m, (v - 1) * k, 1, k)
  }

  /** The first vertices each have a colour. */
  ghost predicate AllColored(m: Model, k: nat, vertices: nat) {
    forall v: nat :: 1 <= v <= vertices ==> HasColor(m, k, v)
  }

  /** The first vertices each have at most one colour. */
  ghost predicate SinglyColored(m: Model, k: nat, vertices: nat) {
    forall v: nat :: 1 <= v <= vertices ==> ColorsApart(m, k, v)
  }

  /** The ends of `e` do not share one of the first colours. */
  ghost predicate EndsDiffer(m: Model, k: nat, e: Edge, colors: nat) {
    forall c: nat :: 1 <= c <= colors ==> !(ColorVar(e.0, c, k) in m && ColorVar(e.1, c, k) in m)
  }

  ghost predicate AllDiffer(m: Model, k: nat, edges: seq<Edge>) {
    forall e :: e in edges ==> EndsDiffer(m, k, e, k)
  }

  ghost predicate Meets(m: Model, n: nat, k: nat, edges: seq<Edge>) {
    AllColored(m, k, n) && SinglyColored(m, k, n) && AllDiffer(m, k, edges)
  }

  lemma ColorVarPositive(v: nat, c: nat, k: nat)
    requires v >= 1 && c >= 1
    ensures ColorVar(v, c, k) > 0
  {
    assert (v - 1) * k >= 0;
  }

  lemma RowPositive(v: nat, k: nat)
    requires v >= 1
    ensures Positive((v - 1) * k, 1, k)
  {
    var base := (v - 1) * k;
    assert base >= 0;
    forall c: nat | 1 <= c <= k
      ensures At(base, 1, c) > 0
    {
    }
  }

  /** The first `n` clauses give every vertex a colour, the next ones, up to position
      `pairs`, only one, and the others make the ends of every edge differ. */
  method GenerateColoring(n: nat, k: nat, edges: seq<Edge>) returns (clauses: seq<Clause>, ghost pairs: nat)
    requires Edges(edges, n)
    ensures forall m: Model :: SatAll(clauses, m) <==> Meets(m, n, k, edges)
    ensures n <= pairs <= |clauses|
    ensures forall m: Model :: SatAll(clauses[..n], m) <==> AllColored(m, k, n)
    ensures forall m: Model :: SatAll(clauses[n..pairs], m) <==> SinglyColored(m, k, n)
    ensures forall m: Model :: SatAll(clauses[pairs..], m) <==> AllDiffer(m, k, edges)
  {
    hide SatAll, SatClause, AtMostOneOf, SomeOf, HasColor, ColorsApart, AllColored, SinglyColored, AllDiffer,
         EndsDiffer, RowClause, At, Positive, ColorVar;
    clauses := [];
    NothingYet(k);
    for v := 1 to n + 1
      invariant |clauses| == v - 1 && forall m: Model :: SatAll(clauses, m) <==> AllColored(m, k, v - 1)
    {
      RowPositive(v, k);
      ghost var before := clauses;
      clauses := clauses + [RowClause((v - 1) * k, 1, k)];
      forall m: Model
        ensures SatAll(clauses, m) <==> AllColored(m, k, v)
      {
        SatMore(before, RowClause((v - 1) * k, 1, k), m);
        RowMeaning((v - 1) * k, 1, k, m);
        ColoredMore(m, k, v);
      }
    }
    ghost var rows := clauses;
    NoMoreClauses(clauses, n);
    for v := 1 to n + 1
      invariant |rows| == n && rows <= clauses
      invariant forall m: Model :: SatAll(clauses[n..], m) <==> SinglyColored(m, k, v - 1)
    {
      RowPositive(v, k);
      ghost var before := clauses;
      clauses := AddPairs(clauses, (v - 1) * k, 1, k);
      forall m: Model
        ensures SatAll(clauses[n..], m) <==> SinglyColored(m, k, v)
      {
        SatRest(before, clauses, n, m);
        SinglyMore(m, k, v);
      }
    }
    ghost var single := clauses;
    pairs := |clauses|;
    NoMoreClauses(clauses, pairs);
    for i := 0 to |edges|
      invariant |single| == pairs && single <= clauses
      invariant forall m: Model :: SatAll(clauses[pairs..], m) <==> AllDiffer(m, k, edges[..i])
    {
      assert edges[i] in edges && edges[..i+1] == edges[..i] + [edges[i]];
      ghost var before := clauses;
      clauses := AddEdge(clauses, k, edges[i]);
      forall m: Model
        ensures SatAll(clauses[pairs..], m) <==> AllDiffer(m, k, edges[..i+1])
      {
        SatRest(before, clauses, pairs, m);
        DifferMore(m, k, edges[..i], edges[i]);
      }
    }
    assert edges[..|edges|] == edges;
    assert clauses[..n] == rows && clauses[n..pairs] == single[n..];
    assert clauses == rows + clauses[n..] && clauses[n..] == clauses[n..pairs] + clauses[pairs..];
    forall m: Model
      ensures SatAll(clauses, m) <==> Meets(m, n, k, edges)
    {
      SatConcat(rows, clauses[n..], m);
      SatConcat(clauses[n..pairs], clauses[pairs..], m);
    }
  }

  /** The clauses of one edge, colour by colour. */
  method AddEdge(clauses: seq<Clause>, k: nat, e: Edge) returns (more: seq<Clause>)
    requires 1 <= e.0 < e.1
    ensures clauses <= more
    ensures forall m: Model :: SatAll(more[|clauses|..], m) <==> EndsDiffer(m, k, e, k)
  {
    hide SatAll, SatClause, EndsDiffer, ColorVar;
    more := clauses;
    assert more[|clauses|..] == [];
    forall m: Model
      ensures SatAll([], m) && EndsDiffer(m, k, e, 0)
    {
      NoClauses(m);
      EndsMore(m, k, e, 0);
    }
    for c := 1 to k + 1
      invariant clauses <= more && forall m: Model :: SatAll(more[|clauses|..], m) <==> EndsDiffer(m, k, e, c - 1)
    {
      ColorVarPositive(e.0, c, k);
      ColorVarPositive(e.1, c, k);
      var x: Lit, y: Lit := ColorVar(e.0, c, k), ColorVar(e.1, c, k);
      ghost var before := more[|clauses|..];
      more := more + [[Neg(x), Neg(y)]];
      assert more[|clauses|..] == before + [[Neg(x), Neg(y)]];
      forall m: Model
        ensures SatAll(more[|clauses|..], m) <==> EndsDiffer(m, k, e, c)
      {
        SatMore(before, [Neg(x), Neg(y)], m);
        NotBoth(x, y, m);
        EndsMore(m, k, e, c);
      }
    }
  }

  lemma NothingYet(k: nat)
    ensures forall m: Model :: SatAll([], m) && AllColored(m, k, 0) && SinglyColored(m, k, 0) && AllDiffer(m, k, [])
  {
  }

  lemma ColoredMore(m: Model, k: nat, v: nat)
    requires v >= 1
    ensures AllColored(m, k, v) <==> AllColored(m, k, v - 1) && SomeOf(m, (v - 1) * k, 1, k)
  {
    assert AllColored(m, k, v) ==> HasColor(m, k, v);
  }

  lemma SinglyMore(m: Model, k: nat, v: nat)
    requires v >= 1
    ensures SinglyColored(m, k, v) <==> SinglyColored(m, k, v - 1) && AtMostOneOf(m, (v - 1) * k, 1, k)
  {
    assert SinglyColored(m, k, v) ==> ColorsApart(m, k, v);
  }

  lemma EndsMore(m: Model, k: nat, e: Edge, c: nat)
    ensures EndsDiffer(m, k, e, 0)
    ensures c >= 1 ==>
      (EndsDiffer(m, k, e, c) <==>
         EndsDiffer(m, k, e, c - 1) && !(ColorVar(e.0, c, k) in m && ColorVar(e.1, c, k) in m))
  {
    hide ColorVar;
  }

  lemma DifferMore(m: Model, k: nat, edges: seq<Edge>, e: Edge)
    ensures AllDiffer(m, k, edges + [e]) <==> AllDiffer(m, k, edges) && EndsDiffer(m, k, e, k)
  {
    hide EndsDiffer;
    assert forall d :: d in edges + [e] <==> d in edges || d == e;
  }

  // -------------------------------------------------------- models and colourings

  ghost predicate ColorsIn(col: seq<nat>, n: nat, k: nat) {
    |col| == n && forall i :: 0 <= i < n ==> 1 <= col[i] <= k
  }

  ghost predicate ProperColoring(col: seq<nat>, n: nat, k: nat, edges: seq<Edge>) {
    && ColorsIn(col, n, k) && Edges(edges, n)
    && forall e :: e in edges ==> col[e.0 - 1] != col[e.1 - 1]
  }

  /** `m` gives every vertex the colour it has in `col`, and no other. */
  ghost predicate Encodes(m: Model, col: seq<nat>, n: nat, k: nat) {
    |col| == n && forall v: nat, c: nat :: 1 <= v <= n && 1 <= c <= k ==> (ColorVar(v, c, k) in m <==> col[v - 1] == c)
  }

  lemma EncodedColor(m: Model, col: seq<nat>, n: nat, k: nat, v: nat, c: nat)
    requires Encodes(m, col, n, k) && 1 <= v <= n && 1 <= c <= k
    ensures ColorVar(v, c, k) in m <==> col[v - 1] == c
  {
  }

  /** A model of the clauses encodes a proper colouring. */
  lemma ModelIsColoring(m: Model, n: nat, k: nat, edges: seq<Edge>) returns (col: seq<nat>)
    requires Meets(m, n, k, edges) && Edges(edges, n)
    ensures ProperColoring(col, n, k, edges) && Encodes(m, col, n, k)
  {
    hide ColorVar, Encodes;
    col := ColorsOf(m, n, k, n);
    forall e | e in edges
      ensures col[e.0 - 1] != col[e.1 - 1]
    {
      EncodedColor(m, col, n, k, e.0, col[e.0 - 1]);
      EncodedColor(m, col, n, k, e.1, col[e.1 - 1]);
      assert EndsDiffer(m, k, e, k);
    }
  }

  lemma {:induction false} ColorsOf(m: Model, n: nat, k: nat, p: nat) returns (col: seq<nat>)
    requires p <= n && AllColored(m, k, n) && SinglyColored(m, k, n)
    ensures ColorsIn(col, p, k) && Encodes(m, col, p, k)
  {
    hide ColorVar;
    if p == 0 {
      col := [];
    } else {
      var rest := ColorsOf(m, n, k, p - 1);
      assert HasColor(m, k, p) && ColorsApart(m, k, p);
      var c := TheColor(m, k, p);
      col := rest + [c];
    }
  }

  lemma TheColor(m: Model, k: nat, v: nat) returns (c: nat)
    requires v >= 1 && HasColor(m, k, v) && ColorsApart(m, k, v)
    ensures 1 <= c <= k && forall d: nat :: 1 <= d <= k ==> (ColorVar(v, d, k) in m <==> d == c)
  {
    hide At;
    c :| 1 <= c <= k && At((v - 1) * k, 1, c) in m;
  }

  lemma OneColorApart(m: Model, k: nat, v: nat, c: nat)
    requires v >= 1 && 1 <= c <= k && forall d: nat :: 1 <= d <= k ==> (ColorVar(v, d, k) in m <==> d == c)
    ensures HasColor(m, k, v) && ColorsApart(m, k, v)
  {
    hide At;
    var base := (v - 1) * k;
    assert ColorVar(v, c, k) in m;
    assert At(base, 1, c) in m;
    forall a: nat, b: nat | 1 <= a < b <= k
      ensures !(At(base, 1, a) in m && At(base, 1, b) in m)
    {
      assert At(base, 1, a) == ColorVar(v, a, k) && At(base, 1, b) == ColorVar(v, b, k);
    }
  }

  /** What encodes a proper colouring is a model of the clauses. */
  lemma ColoringIsModel(m: Model, col: seq<nat>, n: nat, k: nat, edges: seq<Edge>)
    requires ProperColoring(col, n, k, edges) && Encodes(m, col, n, k)
    ensures Meets(m, n, k, edges)
  {
    hide At;
    forall v: nat | 1 <= v <= n
      ensures HasColor(m, k, v) && ColorsApart(m, k, v)
    {
      forall d: nat | 1 <= d <= k
        ensures ColorVar(v, d, k) in m <==> d == col[v - 1]
      {
        EncodedColor(m, col, n, k, v, d);
      }
      OneColorApart(m, k, v, col[v - 1]);
    }
    forall e | e in edges
      ensures EndsDiffer(m, k, e, k)
    {
      forall c: nat | 1 <= c <= k
        ensures !(ColorVar(e.0, c, k) in m && ColorVar(e.1, c, k) in m)
      {
        EncodedColor(m, col, n, k, e.0, c);
        EncodedColor(m, col, n, k, e.1, c);
      }
    }
  }

  /** A model encodes one colouring. */
  lemma OneColoring(m: Model, col: seq<nat>, other: seq<nat>, n: nat, k: nat)
    requires ColorsIn(col, n, k) && ColorsIn(other, n, k) && Encodes(m, col, n, k) && Encodes(m, other, n, k)
    ensures col == other
  {
    forall i | 0 <= i < n
      ensures col[i] == other[i]
    {
      EncodedColor(m, col, n, k, i + 1, col[i]);
      EncodedColor(m, other, n, k, i + 1, col[i]);
    }
  }

  /** A colouring is encoded by one assignment of the variables. */
  lemma OneModel(m: Model, other: Model, col: seq<nat>, n: nat, k: nat)
    requires Encodes(m, col, n, k) && Encodes(other, col, n, k)
    requires forall x :: x in m || x in other ==> 1 <= x <= n * k
    ensures m == other
  {
    forall x
      ensures x in m <==> x in other
    {
      if 1 <= x <= n * k {
        var v, c := VarIsColor(x, n, k);
        EncodedColor(m, col, n, k, v, c);
        EncodedColor(other, col, n, k, v, c);
      }
    }
  }

  lemma RowsApart(a: nat, b: nat, k: nat)
    ensures a < b ==> a * k + k <= b * k
    ensures a <= b ==> a * k <= b * k
  {
    if a < b {
      var d := b - a - 1;
      assert b * k == a * k + k + d * k;
    }
  }

  /** Every variable is that of a vertex and a colour. */
  lemma VarIsColor(x: int, n: nat, k: nat) returns (v: nat, c: nat)
    requires 1 <= x <= n * k
    ensures 1 <= v <= n && 1 <= c <= k && ColorVar(v, c, k) == x
  {
    assert k == 0 ==> n * k == 0;
    var q, r := (x - 1) / k, (x - 1) % k;
    assert x - 1 == q * k + r;
    RowsApart(n, q, k);
    v, c := q + 1, r + 1;
  }

  /** Different pairs of vertex and colour have different variables. */
  lemma ColorVarsDiffer(v: nat, c: nat, w: nat, d: nat, k: nat)
    requires 1 <= v && 1 <= w && 1 <= c <= k && 1 <= d <= k && ColorVar(v, c, k) == ColorVar(w, d, k)
    ensures v == w && c == d
  {
    RowsApart(v - 1, w - 1, k);
    RowsApart(w - 1, v - 1, k);
  }

  ghost function VarFor(col: seq<nat>, k: nat, v: nat): int
    requires 1 <= v <= |col|
  {
    ColorVar(v, col[v - 1], k)
  }

  ghost function ModelFor(col: seq<nat>, k: nat): Model {
    set v: nat | 1 <= v <= |col| :: VarFor(col, k, v)
  }

  /** Every colouring is encoded by an assignment of the `n * k` variables. */
  lemma EncodingExists(col: seq<nat>, n: nat, k: nat)
    requires ColorsIn(col, n, k)
    ensures Encodes(ModelFor(col, k), col, n, k)
    ensures forall x :: x in ModelFor(col, k) ==> 1 <= x <= n * k
  {
    hide ColorVar;
    var m := ModelFor(col, k);
    forall v: nat, c: nat | 1 <= v <= n && 1 <= c <= k
      ensures ColorVar(v, c, k) in m <==> col[v - 1] == c
    {
      if ColorVar(v, c, k) in m {
        var w: nat :| 1 <= w <= n && VarFor(col, k, w) == ColorVar(v, c, k);
        ColorVarsDiffer(v, c, w, col[w - 1], k);
      } else {
        assert VarFor(col, k, v) in m;
      }
    }
    forall x | x in m
      ensures 1 <= x <= n * k
    {
      var w: nat :| 1 <= w <= n && VarFor(col, k, w) == x;
      ColorVarRange(w, col[w - 1], n, k);
    }
  }

  lemma ColorVarRange(v: nat, c: nat, n: nat, k: nat)
    requires 1 <= v <= n && 1 <= c <= k
    ensures 1 <= ColorVar(v, c, k) <= n * k
  {
    RowsApart(v - 1, n, k);
    ColorVarPositive(v, c, k);
  }
}
