/** The DLIS branching rule: count the unassigned literals of the clauses not
    yet satisfied, and take the variable with the most frequent one. */
module DlisChoice {
  import opened Logic
  import opened ImplicationGraph
  import opened SearchState
  import opened SearchSteps

  function Times(c: Clause, l: Lit): nat {
    if c == [] then 0 else Times(c[..|c|-1], l) + if c[|c|-1] == l then 1 else 0
  }

  /** Occurrences of `l` in the clauses of `f` without a true literal. */
  ghost function OpenCount(f: seq<Clause>, value: map<int, bool>, l: Lit): nat {
    if f == [] then 0
    else
      var c := f[|f|-1];
      OpenCount(f[..|f|-1], value, l) + if StatusOf(c, value).Satisfied? then 0 else Times(c, l)
  }

  datatype Score = Score(most: nat, total: nat, variable: int)

  /** The order in which the scores are sorted: by falling counts, then by
      variable. */
  predicate Ahead(a: Score, b: Score) {
    || a.most > b.most
    || (a.most == b.most && a.total > b.total)
    || (a.most == b.most && a.total == b.total && a.variable < b.variable)
  }

  lemma AheadIsOneWay(a: Score, b: Score)
    ensures !(Ahead(a, b) && Ahead(b, a))
  {
  }

  function ScoreOf(pos: nat, neg: nat, v: Variable): Score {
    Score(if pos > neg then pos else neg, pos + neg, v)
  }

  ghost function Rating(f: seq<Clause>, value: map<int, bool>, v: Variable): Score {
    ScoreOf(OpenCount(f, value, v), OpenCount(f, value, Neg(v)), v)
  }

  /** `l` is the decision the rule prescribes. */
  ghost predicate Picks(f: seq<Clause>, value: map<int, bool>, l: Lit) {
    var v: Variable := Var(l);
    && v in VarsOf(f) && v !in value
    && (forall u: Variable :: u in VarsOf(f) && u !in value && u != v ==>
          Ahead(Rating(f, value, v), Rating(f, value, u)))
    && (l > 0 <==> OpenCount(f, value, v) > OpenCount(f, value, Neg(v)))
  }

  /** The rule is a function of the clause list and the assignment. */
  lemma PicksOne(f: seq<Clause>, value: map<int, bool>, l: Lit, k: Lit)
    requires Picks(f, value, l) && Picks(f, value, k)
    ensures l == k
  {
    var u: Variable, v: Variable := Var(l), Var(k);
    var a, b := Rating(f, value, u), Rating(f, value, v);
    assert u != v ==> Ahead(a, b) && Ahead(b, a);
    AheadIsOneWay(a, b);
  }

  function Get(counts: map<int, nat>, v: int): nat {
    if v in counts then counts[v] else 0
  }

  function Counted(counts: map<int, nat>, v: int): (r: map<int, nat>)
    ensures forall u :: Get(r, u) == Get(counts, u) + if u == v then 1 else 0
  {
    counts[v := Get(counts, v) + 1]
  }

  /** The literals counted so far: those of `f`, then `extra` more of each. */
  ghost predicate Tallied(pos: map<int, nat>, neg: map<int, nat>, f: seq<Clause>, extra: Clause, value: map<int,
        bool>) {
    forall v: Variable :: v !in value ==>
      && Get(pos, v) == OpenCount(f, value, v) + Times(extra, v)
      && Get(neg, v) == OpenCount(f, value, Neg(v)) + Times(extra, Neg(v))
  }

  lemma OpenCountSnoc(f: seq<Clause>, i: nat, value: map<int, bool>, l: Lit)
    requires i < |f|
    ensures OpenCount(f[..i+1], value, l) ==
      OpenCount(f[..i], value, l) + (if StatusOf(f[i], value).Satisfied? then 0 else Times(f[i], l))
  {
    assert f[..i+1][..i] == f[..i];
  }

  lemma TallyLiteral(pos: map<int, nat>, neg: map<int, nat>, f: seq<Clause>, c: Clause, i: nat, value: map<int, bool>)
    requires i < |c| && Tallied(pos, neg, f, c[..i], value)
    ensures var l := c[i];
      Tallied(
        if Var(l) !in value && l > 0 then Counted(pos, l) else pos,
        if Var(l) !in value && l < 0 then Counted(neg, Neg(l)) else neg, f, c[..i+1], value)
  {
    hide Get, Counted;
    assert c[..i+1][..i] == c[..i];
    var l := c[i];
    forall k: Lit
      ensures Times(c[..i+1], k) == Times(c[..i], k) + if l == k then 1 else 0
    {
    }
  }

  method CountClause(pos: map<int, nat>, neg: map<int, nat>, clause: Clause, value: map<int, bool>,
        ghost f: seq<Clause>)
    returns (pos': map<int, nat>, neg': map<int, nat>)
    requires Tallied(pos, neg, f, [], value)
    ensures Tallied(pos', neg', f, clause, value)
  {
    hide Tallied, Get, Counted;
    pos', neg' := pos, neg;
    assert clause[..0] == [];
    for i := 0 to |clause|
      invariant Tallied(pos', neg', f, clause[..i], value)
    {
      var lit := clause[i];
      TallyLiteral(pos', neg', f, clause, i, value);
      if Var(lit) !in value {
        if lit > 0 {
          pos' := Counted(pos', Var(lit));
        } else {
          neg' := Counted(neg', Var(lit));
        }
      }
    }
    assert clause[..|clause|] == clause;
  }

  lemma TallyNext(pos: map<int, nat>, neg: map<int, nat>, f: seq<Clause>, i: nat, value: map<int, bool>)
    requires i < |f| && Tallied(pos, neg, f[..i], [], value)
    ensures StatusOf(f[i], value).Satisfied? ==> Tallied(pos, neg, f[..i+1], [], value)
  {
    hide StatusOf, Get;
    forall l: Lit
      ensures OpenCount(f[..i+1], value, l) ==
        OpenCount(f[..i], value, l) + (if StatusOf(f[i], value).Satisfied? then 0 else Times(f[i], l))
    {
      OpenCountSnoc(f, i, value, l);
    }
  }

  lemma TallyDone(pos: map<int, nat>, neg: map<int, nat>, f: seq<Clause>, i: nat, value: map<int, bool>)
    requires i < |f| && Tallied(pos, neg, f[..i], f[i], value) && !StatusOf(f[i], value).Satisfied?
    ensures Tallied(pos, neg, f[..i+1], [], value)
  {
    hide StatusOf, Get;
    forall l: Lit
      ensures OpenCount(f[..i+1], value, l) == OpenCount(f[..i], value, l) + Times(f[i], l)
    {
      OpenCountSnoc(f, i, value, l);
    }
  }
}
