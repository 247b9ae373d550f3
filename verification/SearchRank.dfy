/** Termination of the search: the vector counting the variables assigned on
    each decision level grows lexicographically, so its value as a number does. */
module SearchRank {

  function Pow(b: nat, e: nat): nat {
    if e == 0 then 1 else b * Pow(b, e - 1)
  }

  ghost function Count(level: map<int, nat>, k: nat): nat {
    |set v | v in level && level[v] == k|
  }

  /** The counts of levels `k..n` read as digits in base `b`, where level `p`
      is credited with one more variable than it has. */
  ghost function Digit(level: map<int, nat>, p: int, k: nat): nat {
    Count(level, k) + if k == p then 1 else 0
  }

  ghost function Rank(level: map<int, nat>, p: int, k: nat, n: nat): nat
    decreases n - k
  {
    if k >= n then 0
    else Digit(level, p, k) * Pow(n + 2, n - k) + Rank(level, p, k + 1, n)
  }

  lemma CountBound(level: map<int, nat>, vars: set<int>, k: nat)
    requires level.Keys <= vars
    ensures Count(level, k) <= |vars|
  {
    var s := set v | v in level && level[v] == k;
    Subset(s, vars);
  }

  lemma {:induction false} Subset<T>(s: set<T>, t: set<T>)
    requires s <= t
    ensures |s| <= |t|
  {
    if s != {} {
      var x :| x in s;
      Subset(s - {x}, t - {x});
    }
  }

  lemma MulMono(a: nat, b: nat, p: nat)
    requires a < b
    ensures (a + 1) * p <= b * p
  {
    var d := b - (a + 1);
    assert b * p == (a + 1) * p + d * p;
  }

  lemma MulWeak(a: nat, b: nat, p: nat)
    requires a <= b
    ensures a * p <= b * p
  {
    var d := b - a;
    assert b * p == a * p + d * p;
  }

  lemma {:induction false} RankBound(level: map<int, nat>, p: int, k: nat, n: nat)
    requires k <= n && forall i: nat :: Count(level, i) <= n
    ensures Rank(level, p, k, n) < Pow(n + 2, n + 1 - k)
    decreases n - k
  {
    if k < n {
      RankBound(level, p, k + 1, n);
      var w := Pow(n + 2, n - k);
      MulMono(Digit(level, p, k), n + 2, w);
      assert (Digit(level, p, k) + 1) * w == Digit(level, p, k) * w + w;
    }
  }

  /** The lexicographic order of the counts is the order of the ranks. */
  lemma {:induction false} RankGrows(a: map<int, nat>, p: int, b: map<int, nat>, q: int, k: nat, j: nat, n: nat)
    requires k <= j < n
    requires forall i: nat :: Count(a, i) <= n
    requires forall i :: k <= i < j ==> Digit(a, p, i) == Digit(b, q, i)
    requires Digit(a, p, j) < Digit(b, q, j)
    ensures Rank(a, p, k, n) < Rank(b, q, k, n)
    decreases j - k
  {
    if k < j {
      RankGrows(a, p, b, q, k + 1, j, n);
    } else {
      RankBound(a, p, k + 1, n);
      MulMono(Digit(a, p, j), Digit(b, q, j), Pow(n + 2, n - j));
      assert (Digit(a, p, j) + 1) * Pow(n + 2, n - j) == Digit(a, p, j) * Pow(n + 2, n - j) + Pow(n + 2, n - j);
    }
  }

  ghost predicate Used(level: map<int, nat>, k: nat) {
    exists v :: v in level && level[v] == k
  }

  /** Each of the levels `1..lv` holds a variable, so there are no more levels
      than variables. */
  lemma {:induction false} LevelsBound(level: map<int, nat>, lv: nat)
    requires forall k :: 0 < k <= lv ==> Used(level, k)
    ensures lv <= |level.Keys|
  {
    if lv > 0 {
      assert Used(level, lv);
      var v :| v in level && level[v] == lv;
      var rest := map w | w in level && w != v :: level[w];
      forall k | 0 < k <= lv - 1
        ensures Used(rest, k)
      {
        assert Used(level, k);
        var w :| w in level && level[w] == k;
        assert rest[w] == k;
      }
      LevelsBound(rest, lv - 1);
      assert rest.Keys == level.Keys - {v};
    }
  }

  /** `more` is `level` with further variables, all on level `lv`. */
  ghost predicate Grows(level: map<int, nat>, more: map<int, nat>, lv: nat) {
    && (forall v :: v in level ==> v in more && more[v] == level[v])
    && (forall v :: v in more && v !in level ==> more[v] == lv)
  }

  lemma CountElsewhere(level: map<int, nat>, more: map<int, nat>, lv: nat, k: nat)
    requires Grows(level, more, lv) && k != lv
    ensures Count(more, k) == Count(level, k)
  {
    var s := set w | w in level && level[w] == k;
    var t := set w | w in more && more[w] == k;
    forall w | w in s
      ensures w in t
    {
      assert more[w] == k;
    }
    forall w | w in t
      ensures w in s
    {
      assert w in level;
    }
    assert s == t;
  }

  lemma CountGrows(level: map<int, nat>, more: map<int, nat>, lv: nat)
    requires Grows(level, more, lv)
    ensures Count(level, lv) <= Count(more, lv)
    ensures more.Keys != level.Keys ==> Count(level, lv) < Count(more, lv)
  {
    var s := set w | w in level && level[w] == lv;
    var t := set w | w in more && more[w] == lv;
    forall w | w in s
      ensures w in t
    {
      assert more[w] == lv;
    }
    Subset(s, t);
    if v :| v in more && v !in level {
      assert v in t - s;
      Subset(s, t - {v});
    } else {
      forall v
        ensures v in more.Keys <==> v in level.Keys
      {
      }
    }
  }

  lemma CountCut(level: map<int, nat>, b: nat, k: nat)
    requires k <= b
    ensures Count(map v | v in level && level[v] <= b :: level[v], k) == Count(level, k)
  {
    var cut := map v | v in level && level[v] <= b :: level[v];
    assert (set w | w in level && level[w] == k) == (set w | w in cut && cut[w] == k);
  }

  lemma {:induction false} RankMono(a: map<int, nat>, p: int, b: map<int, nat>, q: int, k: nat, n: nat)
    requires forall i: nat :: Digit(a, p, i) <= Digit(b, q, i)
    ensures Rank(a, p, k, n) <= Rank(b, q, k, n)
    decreases n - k
  {
    if k < n {
      RankMono(a, p, b, q, k + 1, n);
      MulWeak(Digit(a, p, k), Digit(b, q, k), Pow(n + 2, n - k));
    }
  }

  /** Propagation does not lower the rank, and it redeems a credit. */
  lemma RankAfterPropagation(level: map<int, nat>, more: map<int, nat>, lv: nat, credit: bool, n: nat)
    requires Grows(level, more, lv) && (credit ==> level.Keys != more.Keys)
    ensures Rank(level, if credit then lv else -1, 0, n) <= Rank(more, -1, 0, n)
  {
    forall i: nat
      ensures Digit(level, if credit then lv else -1, i) <= Digit(more, -1, i)
    {
      if i == lv {
        CountGrows(level, more, lv);
      } else {
        CountElsewhere(level, more, lv, i);
      }
    }
    RankMono(level, if credit then lv else -1, more, -1, 0, n);
  }

  /** A decision opens a level. */
  lemma RankAfterDecision(level: map<int, nat>, v: int, up: nat, more: map<int, nat>, vars: set<int>)
    requires v !in level && level.Keys <= vars && v in vars && up > 0
    requires forall w :: w in level ==> level[w] < up
    requires more == level[v := up] && forall k :: 0 < k <= up ==> Used(more, k)
    ensures Rank(level, -1, 0, |vars| + 1) < Rank(more, -1, 0, |vars| + 1)
  {
    LevelsBound(more, up);
    Subset(more.Keys, vars);
    forall i: nat
      ensures Count(level, i) <= |vars| + 1
      ensures i != up ==> Digit(level, -1, i) == Digit(more, -1, i)
    {
      CountBound(level, vars, i);
      if i != up {
        CountElsewhere(level, more, up, i);
      }
    }
    CountGrows(level, more, up);
    RankGrows(level, -1, more, -1, 0, up, |vars| + 1);
  }

  /** A backjump to `b` cuts the vector, but the learned clause is a credit. */
  lemma RankAfterJump(level: map<int, nat>, b: nat, lv: nat, vars: set<int>)
    requires level.Keys <= vars && b < lv
    requires forall k :: 0 < k <= lv ==> Used(level, k)
    ensures Rank(level, -1, 0, |vars| + 1) <
      Rank(map v | v in level && level[v] <= b :: level[v], b, 0, |vars| + 1)
  {
    var cut := map v | v in level && level[v] <= b :: level[v];
    LevelsBound(level, lv);
    Subset(level.Keys, vars);
    forall i: nat
      ensures Count(level, i) <= |vars| + 1
      ensures i <= b ==> Count(cut, i) == Count(level, i)
    {
      CountBound(level, vars, i);
      if i <= b {
        CountCut(level, b, i);
      }
    }
    RankGrows(level, -1, cut, b, 0, b, |vars| + 1);
  }

  /** The rank of a search over `vars` stays below this number. */
  ghost function RankLimit(vars: set<int>): nat {
    Pow(|vars| + 3, |vars| + 2)
  }

  lemma RankBelowLimit(level: map<int, nat>, p: int, vars: set<int>)
    requires level.Keys <= vars
    ensures Rank(level, p, 0, |vars| + 1) < RankLimit(vars)
  {
    forall i: nat
      ensures Count(level, i) <= |vars| + 1
    {
      CountBound(level, vars, i);
    }
    RankBound(level, p, 0, |vars| + 1);
  }
}
