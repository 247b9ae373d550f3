/** The learned clause in the order in which it is watched, and the level that
    the solver returns to (analyze.cpp). */
module DrivingClause {
  import opened Logic
  import opened ImplicationGraph
  import opened SearchState
  import Watching

  /** The literal of the higher level comes first, then the later one. */
  predicate Larger(a: Lit, b: Lit, g: Graph)
    requires Var(a) in g.level && Var(a) in g.pos && Var(b) in g.level && Var(b) in g.pos
  {
    || g.level[Var(a)] > g.level[Var(b)]
    || (g.level[Var(a)] == g.level[Var(b)] && g.pos[Var(a)] > g.pos[Var(b)])
  }

  ghost predicate Assigned(c: Clause, g: Graph) {
    forall l :: l in c ==> Var(l) in g.level && Var(l) in g.pos
  }

  /** No literal is larger than one before it. */
  ghost predicate Descending(c: Clause, g: Graph)
    requires Assigned(c, g)
  {
    forall i, j :: 0 <= i < j < |c| ==> !Larger(c[j], c[i], g)
  }

  /** `c` with `l` put before the first literal that is smaller. */
  method Insert(c: Clause, l: Lit, g: Graph) returns (d: Clause)
    requires Assigned(c, g) && Descending(c, g) && Var(l) in g.level && Var(l) in g.pos
    ensures multiset(d) == multiset(c + [l]) && Assigned(d, g) && Descending(d, g)
  {
    var k := |c|;
    while k > 0 && Larger(l, c[k-1], g)
      invariant 0 <= k <= |c| && forall j :: k <= j < |c| ==> Larger(l, c[j], g)
    {
      k := k - 1;
    }
    d := c[..k] + [l] + c[k..];
    assert c == c[..k] + c[k..];
    Watching.SameLiterals(c + [l], d);
    InsertedDescends(c, l, k, g);
  }

  lemma InsertedDescends(c: Clause, l: Lit, k: nat, g: Graph)
    requires Assigned(c, g) && Descending(c, g) && Var(l) in g.level && Var(l) in g.pos && k <= |c|
    requires k > 0 ==> !Larger(l, c[k-1], g)
    requires forall j :: k <= j < |c| ==> Larger(l, c[j], g)
    ensures Assigned(c[..k] + [l] + c[k..], g) && Descending(c[..k] + [l] + c[k..], g)
  {
    var d := c[..k] + [l] + c[k..];
    assert Assigned(d, g);
    forall i, j | 0 <= i < j < |d|
      ensures !Larger(d[j], d[i], g)
    {
      assert d[i] == (if i < k then c[i] else if i == k then l else c[i-1]);
      assert d[j] == (if j < k then c[j] else if j == k then l else c[j-1]);
      assert d[i] in d && d[j] in d;
      if j == k {
        assert c[k-1] in c && i < k - 1 ==> !Larger(c[k-1], c[i], g);
      }
    }
  }

  /** The literals in reverse assignment order. */
  method SortReverse(c: Clause, g: Graph) returns (d: Clause)
    requires Assigned(c, g)
    ensures multiset(d) == multiset(c) && Assigned(d, g) && Descending(d, g)
  {
    d := [];
    for i := 0 to |c|
      invariant multiset(d) == multiset(c[..i]) && Assigned(d, g) && Descending(d, g)
    {
      assert c[..i+1] == c[..i] + [c[i]];
      d := Insert(d, c[i], g);
    }
    assert c[..|c|] == c;
  }

  /** `new_driving_clause`: the asserting literal comes first, and the second
      literal has the level to jump to. */
  method NewDrivingClause(clause: Clause, g: Graph, level: nat) returns (sorted: Clause, jump: nat)
    requires Indexed(g) && level > 0 && Falsified(Lits(clause), g)
    requires forall v :: v in g.level ==> g.level[v] <= level
    requires Reaches(Lits(clause), g, level) && AtMostOne(Lits(clause), g, level) && NoDuplicates(clause)
    ensures multiset(sorted) == multiset(clause) && sorted != []
    ensures AtLevel(sorted[0], g, level) && JumpLevel(sorted, g, level, jump)
    ensures |sorted| > 1 ==> AtLevel(sorted[1], g, jump)
  {
    hide Indexed, NoDuplicates;
    FalseIsAssigned(clause, g);
    if |clause| <= 1 {
      sorted, jump := clause, 0;
      SingleJump(clause, g, level);
    } else {
      sorted := SortReverse(clause, g);
      Watching.SameLiterals(sorted, clause);
      assert sorted[1] in sorted;
      jump := g.level[Var(sorted[1])];
      SecondIsJump(clause, sorted, g, level);
    }
  }

  lemma FalseIsAssigned(c: Clause, g: Graph)
    requires Indexed(g) && Falsified(Lits(c), g)
    ensures Assigned(c, g)
  {
    assert forall l :: l in c ==> l in Lits(c);
  }

  lemma SingleJump(c: Clause, g: Graph, lv: nat)
    requires |c| <= 1 && lv > 0 && Reaches(Lits(c), g, lv)
    ensures c != [] && AtLevel(c[0], g, lv) && JumpLevel(c, g, lv, 0)
  {
    var l :| l in Lits(c) && AtLevel(l, g, lv);
  }

  lemma HighestFirst(d: Clause, g: Graph, i: nat, j: nat)
    requires Assigned(d, g) && Descending(d, g) && i <= j < |d|
    ensures d[i] in d && d[j] in d && g.level[Var(d[j])] <= g.level[Var(d[i])]
  {
    assert d[i] in d && d[j] in d;
    assert i < j ==> !Larger(d[j], d[i], g);
  }

  lemma SecondIsJump(c: Clause, d: Clause, g: Graph, lv: nat)
    requires multiset(d) == multiset(c) && |d| > 1 && NoDuplicates(c) && lv > 0
    requires Assigned(d, g) && Descending(d, g) && forall v :: v in g.level ==> g.level[v] <= lv
    requires Reaches(Lits(c), g, lv) && AtMostOne(Lits(c), g, lv)
    ensures d[1] in d && AtLevel(d[0], g, lv) && JumpLevel(d, g, lv, g.level[Var(d[1])])
  {
    Watching.SameLiterals(c, d);
    var x :| x in Lits(c) && AtLevel(x, g, lv);
    var i :| 0 <= i < |d| && d[i] == x;
    assert d[0] in d && d[1] in d;
    HighestFirst(d, g, 0, i);
    assert d[0] in Lits(c) && d[1] in Lits(c);
    var b := g.level[Var(d[1])];
    forall l | l in d && !AtLevel(l, g, lv)
      ensures AssignedUpTo(l, g, b)
    {
      var j :| 0 <= j < |d| && d[j] == l;
      if j > 0 {
        HighestFirst(d, g, 1, j);
      }
    }
    assert AtLevel(d[1], g, b);
  }
}
