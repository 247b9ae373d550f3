/** The CNF encoders of generate_benchmarks.py, each proved to have exactly the
    models its problem has solutions: for all sizes. */
module Benchmarks {
  import opened Logic
  import opened Clauses

  /** `clauses` and what it means. */
  lemma SatMore(f: seq<Clause>, c: Clause, m: Model)
    ensures SatAll(f + [c], m) <==> SatAll(f, m) && SatClause(c, m)
  {
    assert forall d :: d in f + [c] <==> d in f || d == c;
  }

  lemma SatConcat(f: seq<Clause>, g: seq<Clause>, m: Model)
    ensures SatAll(f + g, m) <==> SatAll(f, m) && SatAll(g, m)
  {
    assert forall d :: d in f + g <==> d in f || d in g;
  }

  /** The clauses added to those from position `k` on. */
  lemma SatRest(before: seq<Clause>, clauses: seq<Clause>, k: nat, m: Model)
    requires before <= clauses && k <= |before|
    ensures SatAll(clauses[k..], m) <==> SatAll(before[k..], m) && SatAll(clauses[|before|..], m)
  {
    assert clauses[k..] == before[k..] + clauses[|before|..];
    SatConcat(before[k..], clauses[|before|..], m);
  }

  lemma NotBoth(x: Lit, y: Lit, m: Model)
    requires x > 0 && y > 0
    ensures SatClause([Neg(x), Neg(y)], m) <==> !(x in m && y in m)
  {
    assert Neg(x) in [Neg(x), Neg(y)] && Neg(y) in [Neg(x), Neg(y)];
  }

  /** The variables `base + step`, `base + 2 step`, ... */
  function At(base: int, step: nat, a: nat): int {
    base + step * a
  }

  ghost predicate Positive(base: int, step: nat, hi: nat) {
    forall a: nat :: 1 <= a <= hi ==> At(base, step, a) > 0
  }

  ghost predicate SomeOf(m: Model, base: int, step: nat, hi: nat) {
    exists a: nat :: 1 <= a <= hi && At(base, step, a) in m
  }

  /** No two of the variables are true, among the pairs before `(x, y)`. */
  ghost predicate NoPairBefore(m: Model, base: int, step: nat, hi: nat, x: nat, y: nat) {
    forall a: nat, b: nat :: 1 <= a < b <= hi && (a < x || (a == x && b < y)) ==>
      !(At(base, step, a) in m && At(base, step, b) in m)
  }

  ghost predicate AtMostOneOf(m: Model, base: int, step: nat, hi: nat) {
    forall a: nat, b: nat :: 1 <= a < b <= hi ==> !(At(base, step, a) in m && At(base, step, b) in m)
  }

  lemma PairStep(m: Model, base: int, step: nat, hi: nat, x: nat, y: nat)
    requires 1 <= x < y <= hi
    ensures NoPairBefore(m, base, step, hi, x, y + 1) <==>
      NoPairBefore(m, base, step, hi, x, y) && !(At(base, step, x) in m && At(base, step, y) in m)
  {
    hide At;
    if NoPairBefore(m, base, step, hi, x, y) && !(At(base, step, x) in m && At(base, step, y) in m) {
      forall a: nat, b: nat | 1 <= a < b <= hi && (a < x || (a == x && b < y + 1))
        ensures !(At(base, step, a) in m && At(base, step, b) in m)
      {
        assert (a == x && b == y) || a < x || (a == x && b < y);
      }
    }
  }

  lemma PairRow(m: Model, base: int, step: nat, hi: nat, x: nat)
    requires x > 0
    ensures NoPairBefore(m, base, step, hi, x, hi + 1) <==> NoPairBefore(m, base, step, hi, x + 1, x + 2)
    ensures NoPairBefore(m, base, step, hi, 1, 2)
    ensures x >= hi ==> (NoPairBefore(m, base, step, hi, x, x + 1) <==> AtMostOneOf(m, base, step, hi))
  {
    hide At;
  }

  lemma RowsDone(base: int, step: nat, hi: nat, x: nat, y: nat)
    requires x > 0 && y == hi + 1
    ensures forall m: Model :: NoPairBefore(m, base, step, hi, x, y) <==> NoPairBefore(m, base, step, hi, x + 1, x + 2)
  {
    hide NoPairBefore, AtMostOneOf;
    forall m: Model
      ensures NoPairBefore(m, base, step, hi, x, y) <==> NoPairBefore(m, base, step, hi, x + 1, x + 2)
    {
      PairRow(m, base, step, hi, x);
    }
  }

  /** The clauses that forbid two of the variables, pair by pair. */
  method AddPairs(clauses: seq<Clause>, base: int, step: nat, hi: nat) returns (more: seq<Clause>)
    requires Positive(base, step, hi)
    ensures clauses <= more
    ensures forall m: Model :: SatAll(more[|clauses|..], m) <==> AtMostOneOf(m, base, step, hi)
  {
    hide At, NoPairBefore, AtMostOneOf, SatAll, SatClause;
    more := clauses;
    assert more[|clauses|..] == [];
    forall m: Model
      ensures SatAll([], m) && NoPairBefore(m, base, step, hi, 1, 2)
    {
      NoClauses(m);
      PairRow(m, base, step, hi, 1);
    }
    var x := 1;
    while x <= hi
      invariant 1 <= x && (x <= hi + 1 || hi == 0) && clauses <= more
      invariant forall m: Model :: SatAll(more[|clauses|..], m) <==> NoPairBefore(m, base, step, hi, x, x + 1)
    {
      var y := x + 1;
      while y <= hi
        invariant x < y <= hi + 1 && clauses <= more
        invariant forall m: Model :: SatAll(more[|clauses|..], m) <==> NoPairBefore(m, base, step, hi, x, y)
      {
        var l: Lit, k: Lit := At(base, step, x), At(base, step, y);
        ghost var before := more[|clauses|..];
        more := more + [[Neg(l), Neg(k)]];
        assert more[|clauses|..] == before + [[Neg(l), Neg(k)]];
        forall m: Model
          ensures SatAll(more[|clauses|..], m) <==> NoPairBefore(m, base, step, hi, x, y + 1)
        {
          SatMore(before, [Neg(l), Neg(k)], m);
          NotBoth(l, k, m);
          PairStep(m, base, step, hi, x, y);
        }
        y := y + 1;
      }
      RowsDone(base, step, hi, x, y);
      x := x + 1;
    }
    forall m: Model
      ensures NoPairBefore(m, base, step, hi, x, x + 1) <==> AtMostOneOf(m, base, step, hi)
    {
      PairRow(m, base, step, hi, x);
    }
  }

  function RowClause(base: int, step: nat, hi: nat): Clause
    requires Positive(base, step, hi)
  {
    seq(hi, a requires 0 <= a < hi => At(base, step, a + 1))
  }

  lemma RowMeaning(base: int, step: nat, hi: nat, m: Model)
    requires Positive(base, step, hi)
    ensures SatClause(RowClause(base, step, hi), m) <==> SomeOf(m, base, step, hi)
  {
    hide At;
    var c := RowClause(base, step, hi);
    if SatClause(c, m) {
      var l :| l in c && True(l, m);
      var i :| 0 <= i < |c| && c[i] == l;
      assert At(base, step, i + 1) in m;
    }
    if SomeOf(m, base, step, hi) {
      var a: nat :| 1 <= a <= hi && At(base, step, a) in m;
      assert c[a - 1] == At(base, step, a) && c[a - 1] in c;
    }
  }

  // ----------------------------------------------------------------- exactly one

  ghost predicate ExactlyOne(m: Model, n: nat) {
    exists i: nat :: 1 <= i <= n && i in m && forall j: nat :: 1 <= j <= n && j in m ==> j == i
  }

  /** `generate_parity` does not encode parity: its models are those with
      exactly one of the variables true. */
  method GenerateParity(n: nat) returns (clauses: seq<Clause>)
    ensures forall m: Model :: SatAll(clauses, m) <==> ExactlyOne(m, n)
  {
    hide SatAll, SatClause, AtMostOneOf, SomeOf, ExactlyOne, RowClause;
    var first := RowClause(0, 1, n);
    clauses := [first];
    ghost var start := clauses;
    clauses := AddPairs(clauses, 0, 1, n);
    forall m: Model
      ensures SatAll(clauses, m) <==> ExactlyOne(m, n)
    {
      NoClauses(m);
      SatMore([], first, m);
      assert [] + [first] == start;
      SatRest(start, clauses, 0, m);
      assert clauses[0..] == clauses && start[0..] == start;
      RowMeaning(0, 1, n, m);
      OneOfRow(m, n);
    }
  }

  lemma NoClauses(m: Model)
    ensures SatAll([], m)
  {
  }

  lemma OneOfRow(m: Model, n: nat)
    ensures SomeOf(m, 0, 1, n) && AtMostOneOf(m, 0, 1, n) <==> ExactlyOne(m, n)
  {
    forall a: nat
      ensures At(0, 1, a) == a
    {
    }
    if ExactlyOne(m, n) {
      var i: nat :| 1 <= i <= n && i in m && forall j: nat :: 1 <= j <= n && j in m ==> j == i;
      assert At(0, 1, i) in m;
    }
    if SomeOf(m, 0, 1, n) && AtMostOneOf(m, 0, 1, n) {
      var i: nat :| 1 <= i <= n && At(0, 1, i) in m;
      forall j: nat | 1 <= j <= n && j in m
        ensures j == i
      {
        assert At(0, 1, j) in m;
      }
    }
  }

  // ------------------------------------------------------------------- flip-flop

  ghost predicate Flips(m: Model, t: nat) {
    t + 1 in m <==> t + 2 !in m
  }

  ghost predicate Alternates(m: Model, depth: nat) {
    forall t: nat :: t < depth ==> Flips(m, t)
  }

  method GenerateFlipFlop(depth: nat) returns (clauses: seq<Clause>)
    ensures forall m: Model :: SatAll(clauses, m) <==> Alternates(m, depth) && 1 in m && depth + 1 in m
    ensures |clauses| == 2 * depth + 2 && clauses[2 * depth..] == [[1], [depth + 1]]
    ensures forall m: Model :: SatAll(clauses[..2 * depth], m) <==> Alternates(m, depth)
  {
    hide SatAll, SatClause, Alternates;
    clauses := [];
    forall m: Model
      ensures SatAll([], m) && Alternates(m, 0)
    {
      NoClauses(m);
      AlternatesMore(m, 0);
    }
    for t := 0 to depth
      invariant forall m: Model :: SatAll(clauses, m) <==> Alternates(m, t)
      invariant |clauses| == 2 * t
    {
      ghost var before := clauses;
      clauses := clauses + [[Neg(t + 1), Neg(t + 2)]];
      ghost var half := clauses;
      clauses := clauses + [[t + 1, t + 2]];
      forall m: Model
        ensures SatAll(clauses, m) <==> Alternates(m, t + 1)
      {
        SatMore(before, [Neg(t + 1), Neg(t + 2)], m);
        SatMore(half, [t + 1, t + 2], m);
        NotBoth(t + 1, t + 2, m);
        OneOfTwo(t + 1, t + 2, m);
        AlternatesMore(m, t);
      }
    }
    ghost var loop := clauses;
    clauses := clauses + [[1]];
    ghost var begun := clauses;
    clauses := clauses + [[depth + 1]];
    assert clauses[..2 * depth] == loop;
    forall m: Model
      ensures SatAll(clauses, m) <==> Alternates(m, depth) && 1 in m && depth + 1 in m
    {
      SatMore(loop, [1], m);
      SatMore(begun, [depth + 1], m);
      UnitClause(1, m);
      UnitClause(depth + 1, m);
    }
  }

  lemma UnitClause(x: Lit, m: Model)
    requires x > 0
    ensures SatClause([x], m) <==> x in m
  {
    assert x in [x];
  }

  lemma OneOfTwo(x: Lit, y: Lit, m: Model)
    requires x > 0 && y > 0
    ensures SatClause([x, y], m) <==> x in m || y in m
  {
    assert x in [x, y] && y in [x, y];
  }

  lemma AlternatesMore(m: Model, t: nat)
    ensures Alternates(m, 0)
    ensures Alternates(m, t + 1) <==> Alternates(m, t) && (t + 1 in m <==> t + 2 !in m)
  {
    assert Alternates(m, t + 1) ==> Flips(m, t);
    if Alternates(m, t) && (t + 1 in m <==> t + 2 !in m) {
      forall s: nat | s < t + 1
        ensures Flips(m, s)
      {
        assert s < t || s == t;
      }
    }
  }

  lemma {:induction false} AlternatesFrom(m: Model, depth: nat, t: nat)
    requires Alternates(m, depth) && 1 in m && t <= depth
    ensures t + 1 in m <==> t % 2 == 0
  {
    if t > 0 {
      AlternatesFrom(m, depth, t - 1);
      assert Flips(m, t - 1);
    }
  }

  /** The flip-flop formula has a model exactly if the depth is even. */
  lemma FlipFlopSatisfiable(depth: nat)
    ensures (exists m: Model :: Alternates(m, depth) && 1 in m && depth + 1 in m) <==> depth % 2 == 0
  {
    forall m: Model | Alternates(m, depth) && 1 in m && depth + 1 in m
      ensures depth % 2 == 0
    {
      AlternatesFrom(m, depth, depth);
    }
    if depth % 2 == 0 {
      var m := set v | 1 <= v <= depth + 1 && v % 2 == 1;
      forall t: nat | t < depth
        ensures Flips(m, t)
      {
        assert t + 1 in m <==> (t + 1) % 2 == 1;
        assert t + 2 in m <==> (t + 2) % 2 == 1;
      }
      assert Alternates(m, depth) && 1 in m && depth + 1 in m;
    }
  }

  // ------------------------------------------------------------------ pigeonhole

  ghost predicate HasHole(m: Model, n: nat, p: nat) {
    SomeOf(m, (p - 1) * n, 1, n)
  }

  ghost predicate HoleApart(m: Model, n: nat, h: nat) {
    AtMostOneOf(m, h - n, n, n + 1)
  }

  /** The first pigeons each have one of the `n` holes. */
  ghost predicate Housed(m: Model, n: nat, pigeons: nat) {
    forall p: nat :: 1 <= p <= pigeons ==> HasHole(m, n, p)
  }

  /** The first holes each have at most one of the `n + 1` pigeons. */
  ghost predicate Apart(m: Model, n: nat, holes: nat) {
    forall h: nat :: 1 <= h <= holes ==> HoleApart(m, n, h)
  }

  /** The variable of pigeon `p` and hole `h`, as both loops reach it. */
  lemma SeatAt(n: nat, p: nat, h: nat)
    requires p >= 1
    ensures At((p - 1) * n, 1, h) == At(h - n, n, p)
    ensures h >= 1 ==> At((p - 1) * n, 1, h) > 0
  {
    assert (p - 1) * n == n * p - n;
    assert (p - 1) * n >= 0;
  }

  lemma SeatsPositive(n: nat, p: nat, h: nat)
    ensures p >= 1 ==> Positive((p - 1) * n, 1, n)
    ensures 1 <= h <= n ==> Positive(h - n, n, n + 1)
  {
    if p >= 1 {
      var base := (p - 1) * n;
      forall a: nat | 1 <= a <= n
        ensures At(base, 1, a) > 0
      {
        SeatAt(n, p, a);
      }
    }
    if 1 <= h <= n {
      var base := h - n;
      forall a: nat | 1 <= a <= n + 1
        ensures At(base, n, a) > 0
      {
        SeatAt(n, a, h);
      }
    }
  }

  /** The first `n + 1` clauses say that every pigeon has a hole, the others that no
      two share one; together they have no model. */
  method GeneratePigeonhole(n: nat) returns (clauses: seq<Clause>, ghost pigeons: nat)
    ensures pigeons == n + 1 <= |clauses|
    ensures forall m: Model :: SatAll(clauses[..pigeons], m) <==> Housed(m, n, pigeons)
    ensures forall m: Model :: SatAll(clauses[pigeons..], m) <==> Apart(m, n, n)
    ensures forall m: Model :: SatAll(clauses, m) <==> Housed(m, n, pigeons) && Apart(m, n, n)
    ensures Unsat(clauses)
  {
    hide SatAll, SatClause, AtMostOneOf, SomeOf, Housed, Apart, RowClause, At, Positive;
    clauses, pigeons := [], n + 1;
    NothingHoused(n);
    for p := 1 to n + 2
      invariant |clauses| == p - 1 && forall m: Model :: SatAll(clauses, m) <==> Housed(m, n, p - 1)
    {
      SeatsPositive(n, p, 0);
      ghost var before := clauses;
      clauses := clauses + [RowClause((p - 1) * n, 1, n)];
      forall m: Model
        ensures SatAll(clauses, m) <==> Housed(m, n, p)
      {
        SatMore(before, RowClause((p - 1) * n, 1, n), m);
        RowMeaning((p - 1) * n, 1, n, m);
        HousedMore(m, n, p);
      }
    }
    ghost var rows := clauses;
    NothingApart(n);
    NoMoreClauses(clauses, pigeons);
    for h := 1 to n + 1
      invariant |rows| == pigeons && rows <= clauses
      invariant forall m: Model :: SatAll(clauses[pigeons..], m) <==> Apart(m, n, h - 1)
    {
      SeatsPositive(n, 0, h);
      ghost var before := clauses;
      clauses := AddPairs(clauses, h - n, n, n + 1);
      forall m: Model
        ensures SatAll(clauses[pigeons..], m) <==> Apart(m, n, h)
      {
        SatRest(before, clauses, pigeons, m);
        ApartMore(m, n, h);
      }
    }
    assert clauses[..pigeons] == rows && clauses == rows + clauses[pigeons..];
    forall m: Model
      ensures SatAll(clauses, m) <==> Housed(m, n, pigeons) && Apart(m, n, n)
      ensures !SatAll(clauses, m)
    {
      SatConcat(rows, clauses[pigeons..], m);
      NoSeating(m, n);
    }
  }

  lemma NoMoreClauses(clauses: seq<Clause>, k: nat)
    requires |clauses| == k
    ensures clauses[k..] == [] && forall m: Model :: SatAll(clauses[k..], m)
  {
  }

  lemma NothingHoused(n: nat)
    ensures forall m: Model :: SatAll([], m) <==> Housed(m, n, 0)
  {
  }

  lemma NothingApart(n: nat)
    ensures forall m: Model :: Apart(m, n, 0)
  {
  }

  lemma HousedMore(m: Model, n: nat, p: nat)
    requires p >= 1
    ensures Housed(m, n, p) <==> Housed(m, n, p - 1) && SomeOf(m, (p - 1) * n, 1, n)
  {
    hide HasHole;
    assert HasHole(m, n, p) <==> SomeOf(m, (p - 1) * n, 1, n) by { HoleMeans(m, n, p, p); }
    assert Housed(m, n, p) ==> HasHole(m, n, p);
  }

  lemma HoleMeans(m: Model, n: nat, p: nat, h: nat)
    ensures HasHole(m, n, p) <==> SomeOf(m, (p - 1) * n, 1, n)
    ensures HoleApart(m, n, h) <==> AtMostOneOf(m, h - n, n, n + 1)
  {
  }

  lemma ApartMore(m: Model, n: nat, h: nat)
    requires h >= 1
    ensures Apart(m, n, h) <==> Apart(m, n, h - 1) && AtMostOneOf(m, h - n, n, n + 1)
  {
    hide HoleApart;
    HoleMeans(m, n, h, h);
    assert Apart(m, n, h) ==> HoleApart(m, n, h);
  }

  /** Picking a hole for each of the first `p` pigeons picks different holes. */
  lemma {:induction false} Seating(m: Model, n: nat, p: nat) returns (holes: seq<Lit>)
    requires p <= n + 1 && Housed(m, n, n + 1) && Apart(m, n, n)
    ensures |holes| == p && NoDuplicates(holes)
    ensures forall i :: 0 <= i < p ==> 1 <= holes[i] <= n && At((i + 1 - 1) * n, 1, holes[i]) in m
  {
    hide At, AtMostOneOf;
    if p == 0 {
      holes := [];
    } else {
      var rest := Seating(m, n, p - 1);
      assert HasHole(m, n, p);
      var h: nat :| 1 <= h <= n && At((p - 1) * n, 1, h) in m;
      holes := rest + [h];
      forall i | 0 <= i < p - 1
        ensures rest[i] != h
      {
        if rest[i] == h {
          Shared(m, n, i + 1, p, h);
        }
      }
    }
  }

  lemma Shared(m: Model, n: nat, p: nat, q: nat, h: nat)
    requires 1 <= p < q <= n + 1 && 1 <= h <= n && Apart(m, n, n)
    ensures !(At((p - 1) * n, 1, h) in m && At((q - 1) * n, 1, h) in m)
  {
    hide At;
    SeatAt(n, p, h);
    SeatAt(n, q, h);
    assert HoleApart(m, n, h);
  }

  function UpTo(n: nat): set<Lit> {
    if n == 0 then {} else UpTo(n - 1) + {n}
  }

  lemma {:induction false} UpToSize(n: nat)
    ensures |UpTo(n)| == n && forall v: Lit :: v in UpTo(n) <==> 1 <= v <= n
  {
    if n > 0 {
      UpToSize(n - 1);
    }
  }

  /** The pigeonhole principle, for every number of holes. */
  lemma NoSeating(m: Model, n: nat)
    ensures !(Housed(m, n, n + 1) && Apart(m, n, n))
  {
    hide At, Housed, Apart, NoDuplicates;
    if Housed(m, n, n + 1) && Apart(m, n, n) {
      var holes := Seating(m, n, n + 1);
      SizeOf(holes);
      UpToSize(n);
      SizeOfSubset(Lits(holes), UpTo(n));
    }
  }
}
