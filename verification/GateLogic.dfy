/** When gate clauses force the pivot to exactly one value. */
module GateLogic {
  import opened Logic
  import opened Clauses
  import opened Elimination
  import opened Elim
  import opened Numbers

  /** Exactly one side of the gate forces the pivot, under every assignment that
      extends the root-level one. */
  ghost predicate GateOver(literals: map<nat, Clause>, gate: set<nat>, p: Lit, vals: map<int, bool>) {
    forall m: Model :: Agrees(m, vals) ==> ForcesOne(literals, gate, p, m)
  }

  ghost predicate ForcesOne(literals: map<nat, Clause>, gate: set<nat>, p: Lit, m: Model) {
    ForcedBy(literals, gate, p, m) <==> !ForcedBy(literals, gate, Neg(p), m)
  }

  lemma GateOverIsGate(s: State, gate: set<nat>, p: Lit)
    requires GateOver(s.literals, gate, p, s.vals) && Val(p, s.vals) == 0 && forall v :: v in s.vals ==> v > 0
    requires forall r :: r in gate ==> r in s.literals && r !in s.garbage
    ensures IsGate(s, gate, p)
  {
    WithoutUnits(s.literals, s.garbage, s.vals, s.unsat, p);
    forall m: Model | Models(m, Without(F(s), p))
      ensures ForcesOne(s.literals, gate, p, m)
    {
      assert Models(m, Units(s.vals));
      AgreesUnits(m, s.vals);
    }
  }

  /** Without a true literal a clause is as good as its unassigned literals. */
  lemma RestActual(c: Clause, vals: map<int, bool>, q: Lit, m: Model)
    requires Agrees(m, vals) && !HasTrue(c, vals)
    ensures SatLits(Rest(Lits(c), q), m) <==> SatLits(Actual(c, vals) - {q}, m)
  {
    if SatLits(Rest(Lits(c), q), m) {
      var l :| l in Rest(Lits(c), q) && True(l, m);
      AgreesTrue(m, vals, l);
      assert l in Actual(c, vals) - {q};
    }
    if SatLits(Actual(c, vals) - {q}, m) {
      var l :| l in Actual(c, vals) - {q} && True(l, m);
      assert l in Rest(Lits(c), q);
    }
  }

  lemma RestTrue(c: Clause, vals: map<int, bool>, q: Lit, m: Model)
    requires Agrees(m, vals) && HasTrue(c, vals) && Val(q, vals) == 0
    ensures SatLits(Rest(Lits(c), q), m)
  {
    var l :| l in c && Val(l, vals) > 0;
    AgreesTrue(m, vals, l);
    assert l in Rest(Lits(c), q);
  }

  lemma ForcedOne(literals: map<nat, Clause>, gate: set<nat>, q: Lit, m: Model, r: nat)
    requires r in gate && r in literals && q in literals[r] && !SatLits(Rest(Lits(literals[r]), q), m)
    ensures ForcedBy(literals, gate, q, m)
  {
  }

  // ------------------------------------------------------------- equivalence

  /** The pivot is equivalent to `x`. */
  lemma EquivalenceGate(literals: map<nat, Clause>, c: nat, d: nat, p: Lit, x: Lit, vals: map<int, bool>)
    requires c in literals && d in literals && Val(p, vals) == 0 && Var(x) != Var(p)
    requires Actual(literals[c], vals) == {Neg(p), x} && Actual(literals[d], vals) == {p, Neg(x)}
    requires !HasTrue(literals[c], vals) && !HasTrue(literals[d], vals)
    ensures GateOver(literals, {c, d}, p, vals)
  {
    var gate := {c, d};
    assert Neg(p) in Actual(literals[c], vals) && p in Actual(literals[d], vals);
    assert p !in Actual(literals[c], vals) && Neg(p) !in Actual(literals[d], vals);
    forall m: Model | Agrees(m, vals)
      ensures ForcesOne(literals, gate, p, m)
    {
      RestActual(literals[c], vals, Neg(p), m);
      RestActual(literals[d], vals, p, m);
      OneLiteral(Actual(literals[c], vals) - {Neg(p)}, x, m);
      OneLiteral(Actual(literals[d], vals) - {p}, Neg(x), m);
      if True(x, m) {
        ForcedOne(literals, gate, p, m, d);
      } else {
        ForcedOne(literals, gate, Neg(p), m, c);
      }
    }
  }

  lemma OneLiteral(c: set<Lit>, x: Lit, m: Model)
    requires c == {x}
    ensures SatLits(c, m) <==> True(x, m)
  {
    assert x in c;
  }

  // --------------------------------------------------------------------- and

  /** A side clause of an AND gate. */
  ghost predicate SideClause(literals: map<nat, Clause>, d: nat, p: Lit, x: Lit, vals: map<int, bool>) {
    d in literals && Actual(literals[d], vals) == {p, x} && !HasTrue(literals[d], vals)
  }

  /** `d` is a side clause for one of the literals. */
  ghost predicate SideOfSome(literals: map<nat, Clause>, d: nat, base: set<Lit>, p: Lit, vals: map<int, bool>) {
    exists l :: l in base && SideClause(literals, d, p, Neg(l), vals) && Neg(p) !in literals[d]
  }

  ghost predicate HasSide(literals: map<nat, Clause>, gate: set<nat>, c: nat, l: Lit, p: Lit, vals: map<int, bool>) {
    exists d :: d in gate && d != c && SideClause(literals, d, p, Neg(l), vals)
  }

  /** The negated pivot is the conjunction of the negated other literals of `c`,
      with one binary clause, or more, for each of them. */
  lemma AndGate(literals: map<nat, Clause>, gate: set<nat>, c: nat, p: Lit, vals: map<int, bool>)
    requires c in gate && c in literals && Val(p, vals) == 0 && Neg(p) in literals[c] && p !in literals[c]
    requires !HasTrue(literals[c], vals)
    requires forall d :: d in gate && d != c ==> SideOfSome(literals, d, Actual(literals[c], vals) - {Neg(p)}, p, vals)
    requires forall l :: l in Actual(literals[c], vals) && l != Neg(p) ==> HasSide(literals, gate, c, l, p, vals)
    ensures GateOver(literals, gate, p, vals)
  {
    hide SideOfSome, HasSide, SideClause, ForcedBy, HasTrue;
    var base := Actual(literals[c], vals) - {Neg(p)};
    forall m: Model | Agrees(m, vals)
      ensures ForcesOne(literals, gate, p, m)
    {
      RestActual(literals[c], vals, Neg(p), m);
      if SatLits(base, m) {
        var l :| l in base && True(l, m);
        SideForced(literals, gate, c, l, p, vals, m);
        NotForced(literals, gate, c, base, p, vals, m);
      } else {
        ForcedOne(literals, gate, Neg(p), m, c);
        NoSideForced(literals, gate, c, base, p, vals, m);
      }
    }
  }

  lemma SideForced(literals: map<nat, Clause>, gate: set<nat>, c: nat, l: Lit, p: Lit, vals: map<int, bool>, m: Model)
    requires HasSide(literals, gate, c, l, p, vals) && True(l, m) && Agrees(m, vals) && l != Neg(p)
    ensures ForcedBy(literals, gate, p, m)
  {
    var d :| d in gate && d != c && SideClause(literals, d, p, Neg(l), vals);
    SideForces(literals, d, p, Neg(l), vals, m);
  }

  lemma NotForced(literals: map<nat, Clause>, gate: set<nat>, c: nat, base: set<Lit>, p: Lit, vals: map<int, bool>,
        m: Model)
    requires forall d :: d in gate && d != c ==> SideOfSome(literals, d, base, p, vals)
    requires c in literals && SatLits(Rest(Lits(literals[c]), Neg(p)), m)
    ensures !ForcedBy(literals, gate, Neg(p), m)
  {
    forall r | r in gate && r != c
      ensures r in literals && Neg(p) !in literals[r]
    {
      assert SideOfSome(literals, r, base, p, vals);
    }
  }

  lemma NoSideForced(literals: map<nat, Clause>, gate: set<nat>, c: nat, base: set<Lit>, p: Lit, vals: map<int, bool>,
        m: Model)
    requires forall d :: d in gate && d != c ==> SideOfSome(literals, d, base, p, vals)
    requires c in literals && p !in literals[c] && Agrees(m, vals) && !SatLits(base, m) && Neg(p) !in base
    ensures !ForcedBy(literals, gate, p, m)
  {
    forall r | r in gate && r in literals && p in literals[r]
      ensures SatLits(Rest(Lits(literals[r]), p), m)
    {
      assert SideOfSome(literals, r, base, p, vals);
      var l :| l in base && SideClause(literals, r, p, Neg(l), vals) && Neg(p) !in literals[r];
      SideForces(literals, r, p, Neg(l), vals, m);
    }
  }

  lemma SideForces(literals: map<nat, Clause>, d: nat, p: Lit, x: Lit, vals: map<int, bool>, m: Model)
    requires SideClause(literals, d, p, x, vals) && Agrees(m, vals) && x != p
    ensures p in literals[d] && (SatLits(Rest(Lits(literals[d]), p), m) <==> True(x, m))
  {
    assert p in Actual(literals[d], vals);
    RestActual(literals[d], vals, p, m);
    OneLiteral(Actual(literals[d], vals) - {p}, x, m);
  }

  // -------------------------------------------------------------- if-then-else

  lemma TwoLiterals(c: set<Lit>, x: Lit, y: Lit, m: Model)
    requires c == {x, y}
    ensures SatLits(c, m) <==> True(x, m) || True(y, m)
  {
    assert x in c && y in c;
  }

  /** A ternary clause without true literals forces `q` exactly if both other
      literals are false; with a true literal it forces nothing. */
  lemma TernaryForces(c: Clause, q: Lit, x: Lit, y: Lit, vals: map<int, bool>, m: Model)
    requires Actual(c, vals) == {q, x, y} && x != q && y != q && Agrees(m, vals) && Val(q, vals) == 0
    ensures q in c
    ensures SatLits(Rest(Lits(c), q), m) <==> HasTrue(c, vals) || True(x, m) || True(y, m)
  {
    assert q in Actual(c, vals);
    if HasTrue(c, vals) {
      RestTrue(c, vals, q, m);
    } else {
      RestActual(c, vals, q, m);
      TwoLiterals(Actual(c, vals) - {q}, x, y, m);
    }
  }

  /** An assignment that extends `vals` with the values of two more variables. */
  lemma Chosen(vals: map<int, bool>, x: Lit, y: Lit) returns (m: Model)
    requires Val(x, vals) == 0 && Val(y, vals) == 0 && Var(x) != Var(y)
    ensures Agrees(m, vals) && !True(x, m) && !True(y, m)
  {
    var base := (set v | v in vals && vals[v]);
    var with := base + (if x < 0 then {Var(x)} else {}) + (if y < 0 then {Var(y)} else {});
    m := with;
  }

  ghost predicate NoneSatisfied(literals: map<nat, Clause>, gate: set<nat>, vals: map<int, bool>) {
    forall r :: r in gate && r in literals ==> !HasTrue(literals[r], vals)
  }

  /** The four clauses of `p = if -b then -c else -e`. */
  ghost predicate IteClauses(literals: map<nat, Clause>, di: nat, dj: nat, d1: nat, d2: nat, p: Lit, b: Lit, c: Lit,
        e: Lit, vals: map<int, bool>) {
    && di in literals && dj in literals && d1 in literals && d2 in literals
    && Actual(literals[di], vals) == {p, b, c} && Actual(literals[dj], vals) == {p, Neg(b), e}
    && Actual(literals[d1], vals) == {Neg(p), b, Neg(c)} && Actual(literals[d2], vals) == {Neg(p), Neg(b), Neg(e)}
    && Neg(p) !in literals[di] && Neg(p) !in literals[dj] && p !in literals[d1] && p !in literals[d2]
    && Val(p, vals) == 0 && Val(b, vals) == 0 && Val(c, vals) == 0 && Val(e, vals) == 0
    && Var(b) != Var(p) && Var(c) != Var(p) && Var(e) != Var(p) && Var(b) != Var(c) && Var(b) != Var(e)
  }

  lemma IteForces(literals: map<nat, Clause>, di: nat, dj: nat, d1: nat, d2: nat, p: Lit, b: Lit, c: Lit, e: Lit,
        vals: map<int, bool>, m: Model)
    requires IteClauses(literals, di, dj, d1, d2, p, b, c, e, vals) && Agrees(m, vals)
    ensures ForcedBy(literals, {di, dj, d1, d2}, p, m) <==>
      || (!HasTrue(literals[di], vals) && !True(b, m) && !True(c, m))
      || (!HasTrue(literals[dj], vals) && True(b, m) && !True(e, m))
    ensures ForcedBy(literals, {di, dj, d1, d2}, Neg(p), m) <==>
      || (!HasTrue(literals[d1], vals) && !True(b, m) && True(c, m))
      || (!HasTrue(literals[d2], vals) && True(b, m) && True(e, m))
  {
    hide HasTrue, SatLits;
    var gate := {di, dj, d1, d2};
    TernaryForces(literals[di], p, b, c, vals, m);
    TernaryForces(literals[dj], p, Neg(b), e, vals, m);
    TernaryForces(literals[d1], Neg(p), b, Neg(c), vals, m);
    TernaryForces(literals[d2], Neg(p), Neg(b), Neg(e), vals, m);
    assert di in gate && dj in gate && d1 in gate && d2 in gate;
  }

  /** The gate found is one exactly if none of its clauses is satisfied at root
      level: assigned literals are skipped whatever their value is. */
  lemma IteGate(literals: map<nat, Clause>, di: nat, dj: nat, d1: nat, d2: nat, p: Lit, b: Lit, c: Lit, e: Lit,
        vals: map<int, bool>)
    requires IteClauses(literals, di, dj, d1, d2, p, b, c, e, vals)
    ensures GateOver(literals, {di, dj, d1, d2}, p, vals) <==> NoneSatisfied(literals, {di, dj, d1, d2}, vals)
  {
    hide HasTrue, ForcedBy;
    var gate := {di, dj, d1, d2};
    assert di in gate && dj in gate && d1 in gate && d2 in gate;
    if NoneSatisfied(literals, gate, vals) {
      forall m: Model | Agrees(m, vals)
        ensures ForcesOne(literals, gate, p, m)
      {
        IteForces(literals, di, dj, d1, d2, p, b, c, e, vals, m);
      }
    } else {
      var r :| r in gate && r in literals && HasTrue(literals[r], vals);
      IteFails(literals, di, dj, d1, d2, p, b, c, e, vals, r);
    }
  }

  lemma IteFails(literals: map<nat, Clause>, di: nat, dj: nat, d1: nat, d2: nat, p: Lit, b: Lit, c: Lit, e: Lit,
        vals: map<int, bool>, r: nat)
    requires IteClauses(literals, di, dj, d1, d2, p, b, c, e, vals) && r in {di, dj, d1, d2}
    requires HasTrue(literals[r], vals)
    ensures !GateOver(literals, {di, dj, d1, d2}, p, vals)
  {
    var x := if r == di || r == d1 then b else Neg(b);
    var y := if r == di then c else if r == d1 then Neg(c) else if r == dj then e else Neg(e);
    var m := Chosen(vals, x, y);
    IteForces(literals, di, dj, d1, d2, p, b, c, e, vals, m);
    assert !ForcesOne(literals, {di, dj, d1, d2}, p, m);
  }

  // ---------------------------------------------------------------------- xor

  /** Bit `j` of `n`. */
  predicate Bit(n: nat, j: nat)
    decreases j
  {
    if j == 0 then n % 2 == 1 else Bit(n / 2, j - 1)
  }

  /** Whether `n` has an odd number of bits. */
  predicate Parity(n: nat) {
    n > 0 && (n % 2 == 1) != Parity(n / 2)
  }

  /** Of `2 * i` and `2 * i + 1` just one has even parity. */
  lemma NextParity(i: nat)
    ensures Parity(2 * i + 1) == !Parity(2 * i)
  {
    var n := 2 * i;
    assert n / 2 == i && n % 2 == 0 && (n + 1) / 2 == i && (n + 1) % 2 == 1;
  }

  /** The number of even parity among `2 * i` and `2 * i + 1`. */
  function NthEven(i: nat): (n: nat)
    ensures 2 * i <= n <= 2 * i + 1 && !Parity(n)
  {
    NextParity(i);
    if Parity(2 * i) then 2 * i + 1 else 2 * i
  }

  /** Counting up to the next number of even parity goes from one to the next. */
  lemma NextEven(i: nat, n: nat)
    requires NthEven(i) < n && !Parity(n) && forall k :: NthEven(i) < k < n ==> Parity(k)
    ensures n == NthEven(i + 1)
  {
    var k := NthEven(i + 1);
    NextParity(i);
    NextParity(i + 1);
    assert k <= n || n <= 2 * i + 1;
  }

  lemma EvenIsNth(n: nat)
    requires !Parity(n)
    ensures n == NthEven(n / 2)
  {
  }

  /** The number with the given bits. */
  function FromBits(bs: seq<bool>): (n: nat)
    ensures n < Pow2(|bs|)
  {
    if bs == [] then 0 else (if bs[0] then 1 else 0) + 2 * FromBits(bs[1..])
  }

  predicate OddTrues(bs: seq<bool>) {
    bs != [] && bs[0] != OddTrues(bs[1..])
  }

  lemma {:induction false} FromBitsBits(bs: seq<bool>)
    ensures forall j :: 0 <= j < |bs| ==> Bit(FromBits(bs), j) == bs[j]
    ensures Parity(FromBits(bs)) == OddTrues(bs)
  {
    if bs != [] {
      var n := FromBits(bs[1..]);
      FromBitsBits(bs[1..]);
      assert FromBits(bs) / 2 == n;
      forall j | 0 <= j < |bs|
        ensures Bit(FromBits(bs), j) == bs[j]
      {
        if j > 0 {
          assert Bit(FromBits(bs), j) == Bit(n, j - 1);
          assert bs[1..][j-1] == bs[j];
        }
      }
    }
  }

  /** The lowest `k` bits of a number below `2^k`. */
  function ToBits(n: nat, k: nat): (bs: seq<bool>)
    ensures |bs| == k && forall j :: 0 <= j < k ==> bs[j] == Bit(n, j)
  {
    seq(k, j requires 0 <= j < k => Bit(n, j))
  }

  lemma {:induction false} ToBitsParity(n: nat, k: nat)
    requires n < Pow2(k)
    ensures OddTrues(ToBits(n, k)) == Parity(n)
  {
    if k > 0 {
      ToBitsParity(n / 2, k - 1);
      assert ToBits(n, k)[1..] == ToBits(n / 2, k - 1);
    }
  }

  lemma {:induction false} FlipParity(bs: seq<bool>, i: nat)
    requires i < |bs|
    ensures OddTrues(bs[i := !bs[i]]) == !OddTrues(bs)
  {
    var cs := bs[i := !bs[i]];
    if i == 0 {
      assert cs[1..] == bs[1..];
    } else {
      FlipParity(bs[1..], i - 1);
      assert cs[1..] == bs[1..][i - 1 := !bs[1..][i - 1]];
    }
  }

  lemma {:induction false} BitsDetermine(n: nat, m: nat, k: nat)
    requires n < Pow2(k) && m < Pow2(k) && forall j :: 0 <= j < k ==> Bit(n, j) == Bit(m, j)
    ensures n == m
  {
    if k > 0 {
      forall j | 0 <= j < k - 1
        ensures Bit(n / 2, j) == Bit(m / 2, j)
      {
        assert Bit(n, j + 1) == Bit(m, j + 1);
      }
      BitsDetermine(n / 2, m / 2, k - 1);
      assert Bit(n, 0) == Bit(m, 0);
    }
  }

  /** Numbers of even parity that agree on all bits but one are equal. */
  lemma OneEven(n: nat, m: nat, k: nat, i: nat)
    requires n < Pow2(k) && m < Pow2(k) && !Parity(n) && !Parity(m) && i < k
    requires forall j :: 0 <= j < k && j != i ==> Bit(n, j) == Bit(m, j)
    ensures n == m
  {
    hide Bit, Parity;
    if Bit(n, i) != Bit(m, i) {
      DifferByOne(n, m, k, i);
    }
    BitsDetermine(n, m, k);
  }

  lemma DifferByOne(n: nat, m: nat, k: nat, i: nat)
    requires n < Pow2(k) && m < Pow2(k) && i < k && Bit(n, i) != Bit(m, i)
    requires forall j :: 0 <= j < k && j != i ==> Bit(n, j) == Bit(m, j)
    ensures Parity(n) != Parity(m)
  {
    hide Bit, Parity, OddTrues, Pow2, ToBits;
    ToBitsParity(n, k);
    ToBitsParity(m, k);
    FlipParity(ToBits(n, k), i);
    assert ToBits(n, k)[i := !ToBits(n, k)[i]] == ToBits(m, k);
  }

  /** Positions and numbers of even parity below a power of two. */
  lemma HalfBelow(k: nat)
    requires k > 0
    ensures forall n: nat :: n < Pow2(k) ==> n / 2 < Pow2(k - 1)
    ensures forall j: nat :: j < Pow2(k - 1) ==> NthEven(j) < Pow2(k)
  {
    assert Pow2(k) == 2 * Pow2(k - 1);
  }

  /** The literals with the signs given by the bits of `n`. */
  function Flip(ls: seq<Lit>, n: nat): (r: seq<Lit>)
    ensures |r| == |ls| && forall j :: 0 <= j < |ls| ==> r[j] == if Bit(n, j) then Neg(ls[j]) else ls[j]
  {
    seq(|ls|, j requires 0 <= j < |ls| => if Bit(n, j) then Neg(ls[j]) else ls[j])
  }

  ghost predicate DistinctVars(ls: seq<Lit>) {
    forall i, j :: 0 <= i < j < |ls| ==> Var(ls[i]) != Var(ls[j])
  }

  /** The signs that make all literals but one false under `m`. */
  ghost predicate Matches(ls: seq<Lit>, i: nat, n: nat, m: Model) {
    forall j :: 0 <= j < |ls| && j != i ==> Bit(n, j) == True(ls[j], m)
  }

  lemma XorClauseForces(c: Clause, ls: seq<Lit>, n: nat, i: nat, vals: map<int, bool>, m: Model)
    requires Actual(c, vals) == Lits(Flip(ls, n)) && i < |ls| && DistinctVars(ls) && Agrees(m, vals)
    ensures var q := Flip(ls, n)[i];
            && q in c && Val(q, vals) == 0
            && (SatLits(Rest(Lits(c), q), m) <==> HasTrue(c, vals) || !Matches(ls, i, n, m))
  {
    var fs := Flip(ls, n);
    var q := fs[i];
    assert q in Lits(fs);
    if HasTrue(c, vals) {
      RestTrue(c, vals, q, m);
    } else {
      RestActual(c, vals, q, m);
      if SatLits(Lits(fs) - {q}, m) {
        var l :| l in Lits(fs) - {q} && True(l, m);
        var j :| 0 <= j < |fs| && fs[j] == l;
        assert Bit(n, j) != True(ls[j], m);
      }
      if !Matches(ls, i, n, m) {
        var j :| 0 <= j < |ls| && j != i && Bit(n, j) != True(ls[j], m);
        assert True(fs[j], m) && fs[j] in Lits(fs) && Var(fs[j]) != Var(q);
      }
    }
  }

  /** The signs of even parity that match `m`. */
  ghost function EvenMatch(ls: seq<Lit>, i: nat, m: Model): nat
    requires i < |ls|
  {
    var bs := seq(|ls|, j requires 0 <= j < |ls| => True(ls[j], m));
    FromBits(if OddTrues(bs) then bs[i := !bs[i]] else bs)
  }

  lemma EvenMatches(ls: seq<Lit>, i: nat, m: Model)
    requires i < |ls|
    ensures var n := EvenMatch(ls, i, m); n < Pow2(|ls|) && !Parity(n) && Matches(ls, i, n, m)
  {
    var bs := seq(|ls|, j requires 0 <= j < |ls| => True(ls[j], m));
    FlipParity(bs, i);
    FromBitsBits(bs);
    FromBitsBits(bs[i := !bs[i]]);
  }

  /** One clause for every vector of signs of even parity. */
  ghost predicate XorClauses(literals: map<nat, Clause>, refs: seq<nat>, ls: seq<Lit>, vals: map<int, bool>) {
    && DistinctVars(ls) && |ls| > 0 && |refs| == Pow2(|ls| - 1)
    && forall i :: 0 <= i < |refs| ==> XorClause(literals, refs, ls, vals, i)
  }

  ghost predicate XorClause(literals: map<nat, Clause>, refs: seq<nat>, ls: seq<Lit>, vals: map<int, bool>, i: nat)
    requires i < |refs|
  {
    && refs[i] in literals && Actual(literals[refs[i]], vals) == Lits(Flip(ls, NthEven(i)))
    && Elim.Consistent(Lits(literals[refs[i]]))
  }

  ghost function RefSet(refs: seq<nat>): set<nat> {
    set r | r in refs
  }

  /** The clause whose signs match forces the pivot, unless it is satisfied, and
      no other clause of the family does. */
  lemma XorForces(literals: map<nat, Clause>, refs: seq<nat>, ls: seq<Lit>, vals: map<int, bool>, i: nat, m: Model)
    requires XorClauses(literals, refs, ls, vals) && i < |ls| && Agrees(m, vals)
    ensures var n := EvenMatch(ls, i, m); var q := Flip(ls, n)[i];
            && n / 2 < |refs| && refs[n / 2] in literals && Val(q, vals) == 0
            && (ForcedBy(literals, RefSet(refs), q, m) <==> !HasTrue(literals[refs[n / 2]], vals))
            && !ForcedBy(literals, RefSet(refs), Neg(q), m)
  {
    hide Bit, Parity, Pow2, EvenMatch, NthEven, SatLits, Actual, Matches, Rest, HasTrue;
    var n := EvenMatch(ls, i, m);
    var q := Flip(ls, n)[i];
    EvenMatches(ls, i, m);
    EvenIsNth(n);
    HalfBelow(|ls|);
    var r := refs[n / 2];
    assert XorClause(literals, refs, ls, vals, n / 2);
    XorClauseForces(literals[r], ls, n, i, vals, m);
    assert r in RefSet(refs);
    if !HasTrue(literals[r], vals) {
      ForcedOne(literals, RefSet(refs), q, m, r);
    }
    forall x, k |
      && (x == q || x == Neg(q)) && k in RefSet(refs) && k in literals
      && x in literals[k] && !SatLits(Rest(Lits(literals[k]), x), m)
      ensures k == r && x == q && !HasTrue(literals[r], vals)
    {
      OnlyMatch(literals, refs, ls, vals, i, m, x, k);
    }
  }

  lemma OnlyMatch(literals: map<nat, Clause>, refs: seq<nat>, ls: seq<Lit>, vals: map<int, bool>, i: nat, m: Model,
        x: Lit, k: nat)
    requires XorClauses(literals, refs, ls, vals) && i < |ls| && Agrees(m, vals)
    requires k in refs && k in literals && x in literals[k] && Var(x) == Var(ls[i])
    requires !SatLits(Rest(Lits(literals[k]), x), m)
    ensures var n := EvenMatch(ls, i, m);
      n / 2 < |refs| && k == refs[n / 2] && x == Flip(ls, n)[i] && !HasTrue(literals[k], vals)
  {
    hide Bit, Parity, Pow2, EvenMatch, NthEven, SatLits, Actual, Matches, Rest, HasTrue;
    var n := EvenMatch(ls, i, m);
    EvenMatches(ls, i, m);
    EvenIsNth(n);
    HalfBelow(|ls|);
    var j :| 0 <= j < |refs| && refs[j] == k;
    assert XorClause(literals, refs, ls, vals, j);
    var e := NthEven(j);
    XorClauseForces(literals[k], ls, e, i, vals, m);
    var y := Flip(ls, e)[i];
    SameSign(literals[k], x, y);
    MatchesEqual(ls, i, n, e, m);
    OneEven(n, e, |ls|, i);
    NthEvenUnique(j, n);
  }

  lemma NthEvenUnique(j: nat, n: nat)
    requires NthEven(j) == n
    ensures n / 2 == j
  {
  }

  lemma SameSign(c: Clause, x: Lit, y: Lit)
    requires x in c && y in c && Var(x) == Var(y) && Elim.Consistent(Lits(c))
    ensures x == y
  {
    assert x in Lits(c) && y in Lits(c);
    assert x == y || x == Neg(y);
  }

  lemma MatchesEqual(ls: seq<Lit>, i: nat, n: nat, e: nat, m: Model)
    requires Matches(ls, i, n, m) && Matches(ls, i, e, m)
    ensures forall j :: 0 <= j < |ls| && j != i ==> Bit(n, j) == Bit(e, j)
  {
    hide Bit;
  }

  /** The parity gate found is one exactly if none of its clauses is satisfied at
      root level. */
  lemma XorGate(literals: map<nat, Clause>, refs: seq<nat>, ls: seq<Lit>, vals: map<int, bool>, i: nat, p: Lit)
    requires XorClauses(literals, refs, ls, vals) && i < |ls| && (ls[i] == p || ls[i] == Neg(p))
    ensures GateOver(literals, RefSet(refs), p, vals) <==> NoneSatisfied(literals, RefSet(refs), vals)
  {
    hide XorClauses, HasTrue, ForcedBy, EvenMatch;
    if NoneSatisfied(literals, RefSet(refs), vals) {
      forall m: Model | Agrees(m, vals)
        ensures ForcesOne(literals, RefSet(refs), p, m)
      {
        XorForces(literals, refs, ls, vals, i, m);
        var n := EvenMatch(ls, i, m);
        assert refs[n / 2] in RefSet(refs);
        var q := Flip(ls, n)[i];
        assert q == p || (q == Neg(p) && Neg(q) == p);
      }
    } else {
      var r :| r in RefSet(refs) && r in literals && HasTrue(literals[r], vals);
      XorFails(literals, refs, ls, vals, i, p, r);
    }
  }

  lemma XorFails(literals: map<nat, Clause>, refs: seq<nat>, ls: seq<Lit>, vals: map<int, bool>, i: nat, p: Lit, r: nat)
    requires XorClauses(literals, refs, ls, vals) && i < |ls| && (ls[i] == p || ls[i] == Neg(p))
    requires r in refs && r in literals && HasTrue(literals[r], vals)
    ensures !GateOver(literals, RefSet(refs), p, vals)
  {
    hide Bit, Parity, Pow2, EvenMatch, NthEven, SatLits, Actual, Matches, Rest, HasTrue, ForcedBy, True;
    var j :| 0 <= j < |refs| && refs[j] == r;
    assert XorClause(literals, refs, ls, vals, j);
    var e := NthEven(j);
    FlipUnassigned(literals[r], ls, e, vals);
    var m := FalseUnder(Flip(ls, e), vals);
    HalfBelow(|ls|);
    FalseMatches(ls, e, i, m);
    EvenMatches(ls, i, m);
    MatchesEqual(ls, i, EvenMatch(ls, i, m), e, m);
    OneEven(EvenMatch(ls, i, m), e, |ls|, i);
    NthEvenUnique(j, e);
    XorForces(literals, refs, ls, vals, i, m);
    var q := Flip(ls, e)[i];
    assert q == p || (q == Neg(p) && Neg(q) == p);
    assert !ForcesOne(literals, RefSet(refs), p, m);
  }

  lemma FlipUnassigned(c: Clause, ls: seq<Lit>, n: nat, vals: map<int, bool>)
    requires Actual(c, vals) == Lits(Flip(ls, n)) && DistinctVars(ls)
    ensures DistinctVars(Flip(ls, n)) && forall j :: 0 <= j < |ls| ==> Val(Flip(ls, n)[j], vals) == 0
  {
    hide Bit;
    forall j | 0 <= j < |ls|
      ensures Val(Flip(ls, n)[j], vals) == 0 && Var(Flip(ls, n)[j]) == Var(ls[j])
    {
      assert Flip(ls, n)[j] in Lits(Flip(ls, n));
    }
  }

  lemma FalseMatches(ls: seq<Lit>, n: nat, i: nat, m: Model)
    requires forall j :: 0 <= j < |ls| ==> !True(Flip(ls, n)[j], m)
    ensures Matches(ls, i, n, m)
  {
    hide Bit;
    forall j | 0 <= j < |ls|
      ensures Bit(n, j) == True(ls[j], m)
    {
      assert !True(Flip(ls, n)[j], m);
    }
  }

  /** An assignment that extends `vals` and falsifies unassigned literals. */
  lemma FalseUnder(ls: seq<Lit>, vals: map<int, bool>) returns (m: Model)
    requires DistinctVars(ls) && forall j :: 0 <= j < |ls| ==> Val(ls[j], vals) == 0
    ensures Agrees(m, vals) && forall j :: 0 <= j < |ls| ==> !True(ls[j], m)
  {
    var base := (set v | v in vals && vals[v]);
    var neg := (set j | 0 <= j < |ls| && ls[j] < 0 :: Var(ls[j]));
    m := base + neg;
    forall j | 0 <= j < |ls|
      ensures !True(ls[j], m)
    {
      if Var(ls[j]) in neg {
        var k :| 0 <= k < |ls| && ls[k] < 0 && Var(ls[k]) == Var(ls[j]);
        assert k == j;
      }
    }
  }

  // ------------------------------------------------------------- what is flagged

  /** The clauses of an if-then-else, up to assigned literals. */
  ghost predicate IsIte(literals: map<nat, Clause>, gate: set<nat>, p: Lit, vals: map<int, bool>) {
    exists di, dj, d1, d2, b, c, e ::
      gate == {di, dj, d1, d2} && IteClauses(literals, di, dj, d1, d2, p, b, c, e, vals)
  }

  /** The clauses of a parity constraint, up to assigned literals. */
  ghost predicate IsXor(literals: map<nat, Clause>, gate: set<nat>, p: Lit, vals: map<int, bool>) {
    exists refs, ls :: gate == RefSet(refs) && p in ls && XorClauses(literals, refs, ls, vals)
  }

  /** The searches flag gates, except that the two which skip assigned literals
      may flag a satisfied clause as well. */
  ghost predicate Flagged(literals: map<nat, Clause>, gate: set<nat>, p: Lit, vals: map<int, bool>) {
    || GateOver(literals, gate, p, vals)
    || ((IsIte(literals, gate, p, vals) || IsXor(literals, gate, p, vals)) && !NoneSatisfied(literals, gate, vals))
  }

  /** With a satisfied clause, an if-then-else or a parity constraint is no gate. */
  lemma ShapesAreGates(literals: map<nat, Clause>, gate: set<nat>, p: Lit, vals: map<int, bool>)
    requires IsIte(literals, gate, p, vals) || IsXor(literals, gate, p, vals)
    ensures GateOver(literals, gate, p, vals) <==> NoneSatisfied(literals, gate, vals)
  {
    hide GateOver, NoneSatisfied, IteClauses, XorClauses;
    if IsIte(literals, gate, p, vals) {
      var di, dj, d1, d2, b, c, e :|
        gate == {di, dj, d1, d2} && IteClauses(literals, di, dj, d1, d2, p, b, c, e, vals);
      IteGate(literals, di, dj, d1, d2, p, b, c, e, vals);
    } else {
      var refs, ls :| gate == RefSet(refs) && p in ls && XorClauses(literals, refs, ls, vals);
      var i :| 0 <= i < |ls| && ls[i] == p;
      XorGate(literals, refs, ls, vals, i, p);
    }
  }
}
