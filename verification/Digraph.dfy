/** Reachability in the implication graph of binary clauses. */
module Digraph {
  import opened Logic

  /** The literals implied by each literal. */
  type Graph = map<Lit, set<Lit>>

  ghost predicate Edge(g: Graph, a: Lit, b: Lit) {
    a in g && b in g[a]
  }

  ghost predicate IsPath(g: Graph, p: seq<Lit>) {
    |p| > 0 && forall i {:trigger p[i]} :: 0 <= i < |p| - 1 ==> Edge(g, p[i], p[i + 1])
  }

  ghost predicate Path(g: Graph, p: seq<Lit>, a: Lit, b: Lit) {
    IsPath(g, p) && p[0] == a && p[|p| - 1] == b
  }

  ghost predicate Reaches(g: Graph, a: Lit, b: Lit) {
    exists p :: Path(g, p, a, b)
  }

  ghost predicate Mutual(g: Graph, a: Lit, b: Lit) {
    Reaches(g, a, b) && Reaches(g, b, a)
  }

  lemma ReachesSelf(g: Graph, a: Lit)
    ensures Reaches(g, a, a)
  {
    assert Path(g, [a], a, a);
  }

  lemma ReachesEdge(g: Graph, a: Lit, b: Lit)
    requires Edge(g, a, b)
    ensures Reaches(g, a, b)
  {
    assert Path(g, [a, b], a, b);
  }

  lemma ReachesTrans(g: Graph, a: Lit, b: Lit, c: Lit)
    requires Reaches(g, a, b) && Reaches(g, b, c)
    ensures Reaches(g, a, c)
  {
    var p :| Path(g, p, a, b);
    var q :| Path(g, q, b, c);
    var r := p + q[1..];
    forall i | 0 <= i < |r| - 1
      ensures Edge(g, r[i], r[i + 1])
    {
      if i < |p| - 1 {
        assert Edge(g, p[i], p[i + 1]);
      } else {
        var k := i - |p| + 1;
        assert Edge(g, q[k], q[k + 1]);
      }
    }
    assert Path(g, r, a, c);
  }

  lemma ReachesStep(g: Graph, a: Lit, b: Lit, c: Lit)
    requires Reaches(g, a, b) && Edge(g, b, c)
    ensures Reaches(g, a, c)
  {
    ReachesEdge(g, b, c);
    ReachesTrans(g, a, b, c);
  }

  ghost predicate Closed(g: Graph, s: set<Lit>) {
    forall a, b :: a in s && Edge(g, a, b) ==> b in s
  }

  /** A closed set is not left. */
  lemma {:induction false} PathStays(g: Graph, s: set<Lit>, p: seq<Lit>, a: Lit, b: Lit)
    requires Closed(g, s) && a in s && Path(g, p, a, b)
    ensures b in s
    decreases |p|
  {
    if |p| > 1 {
      assert Edge(g, p[0], p[1]);
      var q := p[1..];
      forall i | 0 <= i < |q| - 1
        ensures Edge(g, q[i], q[i + 1])
      {
        assert Edge(g, p[i + 1], p[i + 2]);
      }
      PathStays(g, s, q, p[1], b);
    }
  }

  lemma ReachesStays(g: Graph, s: set<Lit>, a: Lit, b: Lit)
    requires Closed(g, s) && a in s && Reaches(g, a, b)
    ensures b in s
  {
    var p :| Path(g, p, a, b);
    PathStays(g, s, p, a, b);
  }

  lemma MutualTrans(g: Graph, a: Lit, b: Lit, c: Lit)
    requires Mutual(g, a, b) && Mutual(g, b, c)
    ensures Mutual(g, a, c)
  {
    ReachesTrans(g, a, b, c);
    ReachesTrans(g, c, b, a);
  }

  // ------------------------------------------------------------- skew symmetry

  /** Every implication has its contraposition. */
  ghost predicate Skew(g: Graph) {
    forall a: Lit, b: Lit :: Edge(g, a, b) ==> Edge(g, Neg(b), Neg(a))
  }

  ghost function Mirror(p: seq<Lit>): (q: seq<Lit>)
    ensures |q| == |p| && forall i :: 0 <= i < |p| ==> q[i] == Neg(p[|p| - 1 - i])
  {
    seq(|p|, i requires 0 <= i < |p| => Neg(p[|p| - 1 - i]))
  }

  lemma ReachesMirror(g: Graph, a: Lit, b: Lit)
    requires Skew(g) && Reaches(g, a, b)
    ensures Reaches(g, Neg(b), Neg(a))
  {
    var p :| Path(g, p, a, b);
    var q := Mirror(p);
    forall i | 0 <= i < |q| - 1
      ensures Edge(g, q[i], q[i + 1])
    {
      var k := |p| - 2 - i;
      assert Edge(g, p[k], p[k + 1]);
    }
    assert Path(g, q, Neg(b), Neg(a));
  }

  lemma MutualMirror(g: Graph, a: Lit, b: Lit)
    requires Skew(g) && Mutual(g, a, b)
    ensures Mutual(g, Neg(a), Neg(b))
  {
    ReachesMirror(g, a, b);
    ReachesMirror(g, b, a);
  }

  // ---------------------------------------------------------- representatives

  /** The literal of the component with the smallest variable. */
  ghost predicate IsRep(g: Graph, l: Lit, r: Lit) {
    Mutual(g, l, r) && forall k :: Mutual(g, l, k) ==> k == r || Var(r) < Var(k)
  }

  lemma RepUnique(g: Graph, a: Lit, b: Lit, r: Lit, s: Lit)
    requires IsRep(g, a, r) && IsRep(g, b, s)
    ensures r == s <==> Mutual(g, a, b)
  {
    if r == s {
      MutualTrans(g, a, r, b);
    }
    if Mutual(g, a, b) {
      MutualTrans(g, a, b, s);
      MutualTrans(g, b, a, r);
    }
  }

  lemma RepMirror(g: Graph, l: Lit, r: Lit)
    requires Skew(g) && IsRep(g, l, r)
    ensures IsRep(g, Neg(l), Neg(r))
  {
    MutualMirror(g, l, r);
    forall k: Lit | Mutual(g, Neg(l), k)
      ensures k == Neg(r) || Var(Neg(r)) < Var(k)
    {
      MutualMirror(g, Neg(l), k);
      assert Neg(Neg(l)) == l && Neg(Neg(k)) == k;
      assert Mutual(g, l, Neg(k));
    }
  }

  /** A component with complementary literals contains the negations of all its
      literals. */
  lemma ConflictMirror(g: Graph, a: Lit, b: Lit)
    requires Skew(g) && Mutual(g, a, b) && Mutual(g, a, Neg(b))
    ensures Mutual(g, a, Neg(a))
  {
    MutualMirror(g, a, b);
    MutualTrans(g, a, Neg(b), Neg(a));
  }
}
