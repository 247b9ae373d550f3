/** Sorting and simplifying a clause that the checker imports. */
module Simplify {
  import opened Logic
  import opened Clauses

  /** `lit_smaller`: by variable, the negative literal first. */
  predicate Smaller(a: Lit, b: Lit) {
    Var(a) < Var(b) || (Var(a) == Var(b) && a < b)
  }

  ghost predicate Sorted(s: Clause) {
    forall i, j :: 0 <= i < j < |s| ==> !Smaller(s[j], s[i])
  }

  method InsertSorted(s: Clause, l: Lit) returns (r: Clause)
    requires Sorted(s)
    ensures Sorted(r) && multiset(r) == multiset(s) + multiset{l}
  {
    var k := |s|;
    while k > 0 && Smaller(l, s[k - 1])
      invariant 0 <= k <= |s| && forall j :: k <= j < |s| ==> Smaller(l, s[j])
    {
      k := k - 1;
    }
    r := s[..k] + [l] + s[k..];
    InsertedAt(s, l, k);
  }

  lemma InsertedAt(s: Clause, l: Lit, k: nat)
    requires Sorted(s) && k <= |s| && (k > 0 ==> !Smaller(l, s[k - 1])) && forall j :: k <= j < |s| ==> Smaller(l, s[j])
    ensures var r := s[..k] + [l] + s[k..]; Sorted(r) && multiset(r) == multiset(s) + multiset{l}
  {
    hide Smaller;
    assert s == s[..k] + s[k..];
    forall i | 0 <= i < k
      ensures !Smaller(l, s[i])
    {
      if i < k - 1 {
        assert !Smaller(s[k - 1], s[i]);
        NotSmaller(l, s[k - 1], s[i]);
      }
    }
    forall j | k <= j < |s|
      ensures !Smaller(s[j], l)
    {
      NotBoth(l, s[j]);
    }
    InsertedSorted(s, l, k, s[..k] + [l] + s[k..]);
  }

  lemma InsertedSorted(s: Clause, l: Lit, k: nat, r: Clause)
    requires Sorted(s) && k <= |s| && r == s[..k] + [l] + s[k..]
    requires (forall i :: 0 <= i < k ==> !Smaller(l, s[i])) && forall j :: k <= j < |s| ==> !Smaller(s[j], l)
    ensures Sorted(r)
  {
    hide Smaller;
    forall i, j | 0 <= i < j < |r|
      ensures !Smaller(r[j], r[i])
    {
      assert r[i] == if i < k then s[i] else if i == k then l else s[i - 1];
      assert r[j] == if j < k then s[j] else if j == k then l else s[j - 1];
    }
  }

  lemma NotSmaller(a: Lit, b: Lit, c: Lit)
    requires !Smaller(a, b) && !Smaller(b, c)
    ensures !Smaller(a, c)
  {
  }

  lemma NotBoth(a: Lit, b: Lit)
    requires Smaller(a, b)
    ensures !Smaller(b, a)
  {
  }

  method Sort(s: Clause) returns (r: Clause)
    ensures Sorted(r) && multiset(r) == multiset(s)
  {
    r := [];
    for i := 0 to |s|
      invariant Sorted(r) && multiset(r) == multiset(s[..i])
    {
      assert s[..i+1] == s[..i] + [s[i]];
      r := InsertSorted(r, s[i]);
    }
    assert s[..|s|] == s;
  }

  /** The clause contains complementary literals or a true one. */
  ghost predicate Trivial(c: Clause, vals: map<int, bool>) {
    exists l :: l in c && (Neg(l) in c || Val(l, vals) > 0)
  }

  /** The first `i` literals without repetition, none of them true or with its negation
      among them. */
  ghost predicate Kept(c: Clause, i: nat, kept: Clause, vals: map<int, bool>)
    requires i <= |c|
  {
    && Lits(kept) == Lits(c[..i]) && (forall j, k :: 0 <= j < k < |kept| ==> Var(kept[j]) < Var(kept[k]))
    && (forall l :: l in kept ==> Val(l, vals) <= 0) && (kept == [] <==> i == 0)
    && (i > 0 ==> kept[|kept| - 1] == c[i - 1])
  }

  /** `tautological`: sort, drop repeated literals; true if the clause is a tautology
      or satisfied. */
  method Tautological(c: Clause, vals: map<int, bool>) returns (res: bool, simplified: Clause)
    ensures res <==> Trivial(c, vals)
    ensures !res ==> Lits(simplified) == Lits(c) && NoDuplicates(simplified)
    ensures !res ==> forall l :: l in simplified ==> Neg(l) !in simplified && Val(l, vals) <= 0
  {
    hide Kept, Trivial, Sorted;
    var sorted := Sort(c);
    SameElements(sorted, c);
    var kept: Clause := [];
    var prev: int := 0;
    KeptNone(sorted, vals);
    for i := 0 to |sorted|
      invariant Kept(sorted, i, kept, vals) && prev == if i == 0 then 0 else sorted[i - 1]
    {
      var lit := sorted[i];
      if lit == prev {
        KeptAgain(sorted, i, kept, vals);
        continue;
      }
      if lit == 0 - prev {
        Complementary(sorted, c, i, vals);
        return true, kept;
      }
      if Val(lit, vals) > 0 {
        TrueLiteral(sorted, c, i, vals);
        return true, kept;
      }
      KeptMore(sorted, i, kept, vals);
      kept := kept + [lit];
      prev := lit;
    }
    assert sorted[..|sorted|] == sorted;
    KeptAll(sorted, c, kept, vals);
    return false, kept;
  }

  lemma SameElements(a: Clause, b: Clause)
    requires multiset(a) == multiset(b)
    ensures forall l :: l in a <==> l in b
  {
    forall l
      ensures l in a <==> l in b
    {
      assert l in a <==> l in multiset(a);
      assert l in b <==> l in multiset(b);
    }
  }

  lemma KeptNone(c: Clause, vals: map<int, bool>)
    ensures Kept(c, 0, [], vals)
  {
  }

  lemma KeptAgain(c: Clause, i: nat, kept: Clause, vals: map<int, bool>)
    requires 0 < i < |c| && Kept(c, i, kept, vals) && c[i] == c[i - 1]
    ensures Kept(c, i + 1, kept, vals)
  {
    LitsOfPrefix(c, i);
    assert c[i] in kept && c[i] in Lits(kept);
  }

  lemma KeptMore(c: Clause, i: nat, kept: Clause, vals: map<int, bool>)
    requires i < |c| && Sorted(c) && Kept(c, i, kept, vals) && Val(c[i], vals) <= 0
    requires i > 0 ==> c[i] != c[i - 1] && c[i] != Neg(c[i - 1])
    ensures Kept(c, i + 1, kept + [c[i]], vals)
  {
    LitsOfPrefix(c, i);
    LitsAppend(kept, c[i]);
    if i > 0 {
      assert !Smaller(c[i], c[i - 1]);
    }
  }

  lemma Complementary(s: Clause, c: Clause, i: nat, vals: map<int, bool>)
    requires 0 < i < |s| && s[i] == Neg(s[i - 1]) && forall l :: l in s <==> l in c
    ensures Trivial(c, vals)
  {
    assert s[i] in c && s[i - 1] in c && Neg(s[i]) == s[i - 1];
  }

  lemma TrueLiteral(s: Clause, c: Clause, i: nat, vals: map<int, bool>)
    requires i < |s| && Val(s[i], vals) > 0 && forall l :: l in s <==> l in c
    ensures Trivial(c, vals)
  {
    assert s[i] in c;
  }

  lemma KeptAll(s: Clause, c: Clause, kept: Clause, vals: map<int, bool>)
    requires Kept(s, |s|, kept, vals) && s[..|s|] == s && forall l :: l in s <==> l in c
    ensures Lits(kept) == Lits(c) && NoDuplicates(kept) && !Trivial(c, vals)
    ensures forall l :: l in kept ==> Neg(l) !in kept && Val(l, vals) <= 0
  {
    forall l
      ensures l in Lits(kept) <==> l in Lits(c)
    {
    }
    forall l | l in kept
      ensures Neg(l) !in kept
    {
      var i :| 0 <= i < |kept| && kept[i] == l;
      assert forall j :: 0 <= j < |kept| && j != i ==> Var(kept[j]) != Var(kept[i]);
    }
    forall l | l in c
      ensures Neg(l) !in c && Val(l, vals) <= 0
    {
      assert l in Lits(kept);
      assert Neg(l) in c ==> Neg(l) in Lits(kept);
    }
  }
}
