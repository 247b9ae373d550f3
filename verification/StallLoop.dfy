/** Once the plain solver has learned a clause that gives propagation nothing to
    do, it learns it again and again: it repeats its decisions down to the same
    conflict.  So it answers exactly if that never happens. */
module StallLoop {
  import opened Logic
  import opened ImplicationGraph
  import opened SearchState
  import opened SearchSteps
  import opened SearchLevels
  import opened TrailOrder
  import opened SearchRuns

  // ------------------------------------------------------------ all its states

  /** The values up to level `k`. */
  ghost function UpTo(g: Graph, k: int): map<int, bool> {
    map v | v in g.value && v in g.level && g.level[v] <= k :: g.value[v]
  }

  /** The decision of level `k` is the first variable open below it. */
  ghost predicate ChosenAt(order: seq<Variable>, g: Graph, k: nat) {
    exists l: Lit ::
      && AtLevel(l, g, k) && IsTrue(l, g) && Var(l) in g.reason && g.reason[Var(l)].None?
      && FirstOpen(order, UpTo(g, k - 1), l)
  }

  ghost predicate Chosen(order: seq<Variable>, g: Graph, lv: nat) {
    forall k: nat :: 0 < k <= lv ==> ChosenAt(order, g, k)
  }

  /** Level `lv` holds nothing but its decision. */
  ghost predicate Fresh(g: Graph, lv: nat)
    requires Indexed(g)
  {
    forall v :: v in g.level && g.level[v] == lv ==> g.reason[v].None?
  }

  /** Only the last clause, which is not false, may have something to propagate. */
  ghost predicate Jumped(f: seq<Clause>, g: Graph, lv: nat) {
    f != [] && AllQuietAt(f[..|f|-1], g, lv) && !Falsified(Lits(f[|f|-1]), g)
  }

  ghost predicate Good(order: seq<Variable>, s: Search) {
    s.Searched? ==>
      && NonEmpty(s.f) && (forall v :: v in order ==> v in VarsOf(s.f))
      && Searching(s.f, s.g, s.lv) && QuietBelow(s.f, s.g, s.lv) && Chosen(order, s.g, s.lv)
      && (s.lv == 0 || Fresh(s.g, s.lv) || Jumped(s.f, s.g, s.lv))
  }

  lemma UpToAdds(g: Graph, h: Graph, lv: nat, k: int)
    requires Indexed(g) && Indexed(h) && Adds(g, h, lv) && k < lv
    ensures UpTo(h, k) == UpTo(g, k)
  {
    var a, b := UpTo(g, k), UpTo(h, k);
    forall v
      ensures v in a <==> v in b
      ensures v in a ==> a[v] == b[v]
    {
    }
  }

  lemma AddsChosen(order: seq<Variable>, g: Graph, h: Graph, lv: nat)
    requires Indexed(g) && Indexed(h) && Adds(g, h, lv) && Chosen(order, g, lv)
    ensures Chosen(order, h, lv)
  {
    hide FirstOpen, UpTo;
    forall k: nat | 0 < k <= lv
      ensures ChosenAt(order, h, k)
    {
      assert ChosenAt(order, g, k);
      UpToAdds(g, h, lv, k - 1);
    }
  }

  lemma UpToCut(g: Graph, b: nat, n: nat, k: int)
    requires Indexed(g) && n <= |g.trail| && k <= b
    ensures UpTo(Cut(g, b, n), k) == UpTo(g, k)
  {
    var a, c := UpTo(g, k), UpTo(Cut(g, b, n), k);
    forall v
      ensures v in a <==> v in c
      ensures v in a ==> a[v] == c[v]
    {
    }
  }

  lemma CutChosen(order: seq<Variable>, g: Graph, lv: nat, b: nat, n: nat)
    requires Indexed(g) && n <= |g.trail| && b <= lv && Chosen(order, g, lv)
    ensures Chosen(order, Cut(g, b, n), b)
  {
    hide FirstOpen, UpTo;
    forall k: nat | 0 < k <= b
      ensures ChosenAt(order, Cut(g, b, n), k)
    {
      assert ChosenAt(order, g, k);
      UpToCut(g, b, n, k - 1);
    }
  }

  lemma UpToDecided(g: Graph, l: Lit, lv: nat, k: int)
    requires Indexed(g) && Var(l) !in g.level && k <= lv
    ensures UpTo(Extend(g, l, lv + 1, None), k) == UpTo(g, k)
  {
    var a, b := UpTo(g, k), UpTo(Extend(g, l, lv + 1, None), k);
    forall v
      ensures v in a <==> v in b
      ensures v in a ==> a[v] == b[v]
    {
    }
  }

  lemma AllUpTo(g: Graph, lv: nat)
    requires Indexed(g) && forall v :: v in g.level ==> g.level[v] <= lv
    ensures UpTo(g, lv) == g.value
  {
    var a := UpTo(g, lv);
    forall v
      ensures v in a <==> v in g.value
      ensures v in a ==> a[v] == g.value[v]
    {
    }
  }

  lemma DecidedChosen(order: seq<Variable>, g: Graph, lv: nat, l: Lit)
    requires Indexed(g) && Chosen(order, g, lv) && Var(l) !in g.level && FirstOpen(order, g.value, l)
    requires forall v :: v in g.level ==> g.level[v] <= lv
    ensures Chosen(order, Extend(g, l, lv + 1, None), lv + 1)
  {
    hide FirstOpen, UpTo;
    var h := Extend(g, l, lv + 1, None);
    forall k: nat | 0 < k <= lv + 1
      ensures ChosenAt(order, h, k)
    {
      UpToDecided(g, l, lv, k - 1);
      if k <= lv {
        assert ChosenAt(order, g, k);
      } else {
        AllUpTo(g, lv);
        assert AtLevel(l, h, k) && IsTrue(l, h);
      }
    }
  }

  /** A state after propagation has finished, or met a conflict. */
  lemma GoodPropagates(order: seq<Variable>, s: Search)
    requires Good(order, s) && s.Searched?
    ensures var p := Propagate(s.f, s.g, s.lv);
      && Indexed(s.g) && Indexed(p.g) && Adds(s.g, p.g, s.lv)
      && Searching(s.f, p.g, s.lv) && QuietBelow(s.f, p.g, s.lv) && Chosen(order, p.g, s.lv)
      && (p.conflict.Some? ==> p.conflict.value in s.f && p.conflict.value != [])
      && (p.conflict.None? ==> forall c :: c in s.f ==> Settled(c, p.g.value))
  {
    hide Searching, Propagate, QuietBelow, Chosen, Adds, Settled;
    var p := Propagate(s.f, s.g, s.lv);
    PropagateAdds(s.f, s.g, s.lv);
    AddsQuietBelow(s.f, s.g, p.g, s.lv);
    AddsChosen(order, s.g, p.g, s.lv);
    if p.conflict.None? {
      PropagateSettles(s.f, s.g, s.lv);
    }
  }

  lemma DecisionGood(order: seq<Variable>, f: seq<Clause>, g: Graph, lv: nat, t: Search)
    requires NonEmpty(f) && (forall v :: v in order ==> v in VarsOf(f))
    requires Searching(f, g, lv) && QuietBelow(f, g, lv) && Chosen(order, g, lv)
    requires (forall c :: c in f ==> Settled(c, g.value)) && Decides(PlainRules(order), f, g, lv, t)
    ensures Good(order, t)
  {
    hide Searching, QuietBelow, Chosen, Settled, VarsOf;
    var l :| Branches(PlainRules(order), f, g.value, l) && t == Searched(f, Extend(g, l, lv + 1, None), lv + 1);
    SearchingIndexed(f, g, lv);
    SearchingDomains(f, g, lv);
    assert l in order && Var(l) == l;
    AfterDecision(f, g, lv, l);
    DecidedChosen(order, g, lv, l);
  }

  lemma JumpGood(order: seq<Variable>, f: seq<Clause>, g: Graph, lv: nat, conflict: Clause, t: Search)
    requires NonEmpty(f) && (forall v :: v in order ==> v in VarsOf(f)) && lv > 0
    requires Searching(f, g, lv) && QuietBelow(f, g, lv) && Chosen(order, g, lv)
    requires conflict in f && Learns(PlainRules(order), f, g, lv, conflict, t)
    ensures Good(order, t)
  {
    hide Searching, QuietBelow, Chosen, Falsified, Reaches, SoleOn, VarsOf, WellFormed, Implies, ClauseVars,
         NoDuplicates, QuietAt, PendingIn;
    SearchingIndexed(f, g, lv);
    var u := LearnedBy(PlainRules(order), conflict, g, lv);
    var b, n :| JumpsTo(f, g, lv, u, b, n, t);
    LearnedByCorrect(PlainRules(order), f, g, lv, conflict);
    AfterJump(f, g, lv, u, b, n);
    OneMore(f, u);
    CutChosen(order, g, lv, b, n);
    assert AllQuietAt(f, g, b) by { LowerQuiet(f, g, lv, b); }
    CutQuietAll(f, g, b, n, b);
    assert t.f[..|t.f|-1] == f;
    NotFalseAfterCut(u, g, lv, b, n);
    MoreVars(f, u);
  }

  lemma LowerQuiet(f: seq<Clause>, g: Graph, lv: nat, k: nat)
    requires QuietBelow(f, g, lv) && k < lv
    ensures AllQuietAt(f, g, k)
  {
  }

  lemma MoreVars(f: seq<Clause>, u: Clause)
    ensures VarsOf(f) <= VarsOf(f + [u])
  {
  }

  lemma NotFalseAfterCut(u: Clause, g: Graph, lv: nat, b: nat, n: nat)
    requires Indexed(g) && Reaches(Lits(u), g, lv) && b < lv && n <= |g.trail|
    ensures !Falsified(Lits(u), Cut(g, b, n))
  {
    var l :| l in Lits(u) && AtLevel(l, g, lv);
    assert !IsFalse(l, Cut(g, b, n));
  }

  lemma GoodTurn(order: seq<Variable>, s: Search, t: Search)
    requires Good(order, s) && Turn(PlainRules(order), s, t)
    ensures Good(order, t)
  {
    hide Searching, Propagate, QuietBelow, Chosen, Settled, Learns, Decides, VarsOf, Good, Indexed, Adds;
    GoodParts(order, s);
    GoodPropagates(order, s);
    var p := Propagate(s.f, s.g, s.lv);
    if p.conflict.Some? {
      if s.lv > 0 {
        JumpGood(order, s.f, p.g, s.lv, p.conflict.value, t);
      } else {
        AnswerGood(order, t);
      }
    } else if VarsOf(s.f) <= p.g.value.Keys {
      AnswerGood(order, t);
    } else {
      DecisionGood(order, s.f, p.g, s.lv, t);
    }
  }

  lemma AnswerGood(order: seq<Variable>, t: Search)
    requires t.Answered?
    ensures Good(order, t)
  {
  }

  lemma GoodParts(order: seq<Variable>, s: Search)
    requires Good(order, s) && s.Searched?
    ensures NonEmpty(s.f) && (forall v :: v in order ==> v in VarsOf(s.f))
  {
  }

  lemma {:induction false} RunIsGood(order: seq<Variable>, run: seq<Search>, i: nat)
    requires IsRun(PlainRules(order), run) && i < |run|
    requires run[0].Searched? && run[0] == Start(run[0].f) && NonEmpty(run[0].f)
    requires forall v :: v in order ==> v in VarsOf(run[0].f)
    ensures Good(order, run[i])
  {
    hide Turn;
    if i > 0 {
      RunIsGood(order, run, i - 1);
      assert Turn(PlainRules(order), run[i-1], run[i-1+1]);
      GoodTurn(order, run[i-1], run[i]);
    } else {
      StartIsGood(order, run[0].f);
    }
  }

  lemma StartIsGood(order: seq<Variable>, f: seq<Clause>)
    requires NonEmpty(f) && forall v :: v in order ==> v in VarsOf(f)
    ensures Good(order, Start(f))
  {
  }

  // ------------------------------------------------------- what a stall leaves

  /** The formula `f` followed by copies of `c`. */
  ghost predicate Copied(f: seq<Clause>, more: seq<Clause>, c: Clause) {
    f <= more && forall i :: |f| <= i < |more| ==> more[i] == c
  }

  /** A stall happened at graph `r`: the decision of level `lv` made `c` false, which
      is the conflict, and the solver has returned to level `b`. */
  datatype Stall = Stall(f: seq<Clause>, r: Graph, lv: nat, b: nat, c: Clause)

  ghost predicate Happened(order: seq<Variable>, w: Stall) {
    && NonEmpty(w.f) && Searching(w.f, w.r, w.lv) && QuietBelow(w.f, w.r, w.lv) && Chosen(order, w.r, w.lv)
    && Fresh(w.r, w.lv) && w.c in w.f && Falsified(Lits(w.c), w.r) && JumpLevel(w.c, w.r, w.lv, w.b)
    && Pass(w.f, 0, w.r, w.lv, false).conflict == Some(w.c)
  }

  /** On the way down to the same conflict. */
  ghost predicate Repeats(w: Stall, s: Search)
    requires Indexed(w.r)
  {
    && s.Searched? && Copied(w.f, s.f, w.c) && w.b <= s.lv <= w.lv && Searching(s.f, s.g, s.lv)
    && Inside(s.g, w.r) && Covers(s.g, w.r, s.lv)
  }

  lemma CopiesQuiet(w: Stall, more: seq<Clause>, k: nat)
    requires Copied(w.f, more, w.c) && w.c in w.f && QuietBelow(w.f, w.r, w.lv) && k < w.lv
    ensures AllQuietAt(more, w.r, k) && forall c :: c in w.f ==> c in more
  {
    assert AllQuietAt(w.f, w.r, k);
    forall c | c in more
      ensures c in w.f
    {
      var i :| 0 <= i < |more| && more[i] == c;
      assert i < |w.f| ==> w.f[i] == c;
    }
    forall c | c in w.f
      ensures c in more
    {
      var i :| 0 <= i < |w.f| && w.f[i] == c;
      assert more[i] == c;
    }
  }

  lemma OneOnLevel(r: Graph, k: nat, l: Lit, v: int)
    requires WellFormed(r) && AtLevel(l, r, k) && r.reason[Var(l)].None?
    requires v in r.level && r.level[v] == k && r.reason[v].None?
    ensures v == Var(l)
  {
    hide Justified;
    DecisionIsFirst(r, r.pos[Var(l)], k);
    DecisionIsFirst(r, r.pos[v], k);
  }

  // ------------------------------------------------------------- deciding again

  /** The same decision as before is the first one open again. */
  lemma DecidesAgain(order: seq<Variable>, w: Stall, s: Search) returns (t: Search)
    requires Happened(order, w) && Repeats(w, s) && s.lv < w.lv
    ensures Turn(PlainRules(order), s, t) && Repeats(w, t) && t.lv == s.lv + 1
  {
    hide Searching, Propagate, QuietBelow, Falsified, Pass, Inside, Covers, FirstOpen, VarsOf, UpTo, Fresh, Copied,
         AllQuietAt;
    var k, p := s.lv, Propagate(s.f, s.g, s.lv);
    SearchingDomains(w.f, w.r, w.lv);
    SearchingDomains(s.f, s.g, k);
    SearchingDomains(s.f, p.g, k);
    CopiesQuiet(w, s.f, k);
    PropagateAgain(s.f, s.g, k, w.r, w.f, w.lv);
    SameUpTo(p.g, w.r, k);
    assert ChosenAt(order, w.r, k + 1);
    var l: Lit :|
      AtLevel(l, w.r, k + 1) && IsTrue(l, w.r) && w.r.reason[Var(l)].None? && FirstOpen(order, UpTo(w.r, k), l);
    NotInside(p.g, w.r, k, Var(l));
    FormulaGrows(w.f, s.f, w.c);
    t := Searched(s.f, Extend(p.g, l, k + 1, None), k + 1);
    assert Branches(PlainRules(order), s.f, p.g.value, l);
    assert Decides(PlainRules(order), s.f, p.g, k, t);
    DecisionKeeps(s.f, p.g, k, l);
    SearchingIndexed(t.f, t.g, t.lv);
    WellFormedOf(w.f, w.r, w.lv);
    DecidedInside(p.g, w.r, k, l);
  }

  lemma WellFormedOf(f: seq<Clause>, g: Graph, lv: nat)
    requires Searching(f, g, lv)
    ensures WellFormed(g) && Monotone(g)
  {
  }

  lemma FormulaGrows(f: seq<Clause>, more: seq<Clause>, c: Clause)
    requires Copied(f, more, c)
    ensures VarsOf(f) <= VarsOf(more)
  {
    assert more == f + more[|f|..];
  }

  lemma SameUpTo(g: Graph, r: Graph, k: nat)
    requires Indexed(g) && Indexed(r) && Inside(g, r) && forall v :: v in g.level ==> g.level[v] <= k
    requires forall v :: v in r.level && r.level[v] <= k ==> v in g.level
    ensures g.value == UpTo(r, k)
  {
    var a := UpTo(r, k);
    forall v
      ensures v in a <==> v in g.value
      ensures v in a ==> a[v] == g.value[v]
    {
    }
  }

  lemma NotInside(g: Graph, r: Graph, k: nat, v: int)
    requires Indexed(g) && Indexed(r) && Inside(g, r) && v in r.level && r.level[v] > k
    requires forall v :: v in g.level ==> g.level[v] <= k
    ensures v !in g.level && v !in g.value
  {
  }

  lemma DecidedInside(g: Graph, r: Graph, k: nat, l: Lit)
    requires Indexed(g) && WellFormed(r) && Inside(g, r) && Covers(g, r, k) && Var(l) !in g.level
    requires forall v :: v in r.level && r.level[v] <= k ==> v in g.level
    requires AtLevel(l, r, k + 1) && IsTrue(l, r) && r.reason[Var(l)].None?
    requires Indexed(Extend(g, l, k + 1, None))
    ensures Inside(Extend(g, l, k + 1, None), r) && Covers(Extend(g, l, k + 1, None), r, k + 1)
  {
    hide Justified;
    forall v | v in r.level && r.level[v] == k + 1 && r.reason[v].None?
      ensures v == Var(l)
    {
      OneOnLevel(r, k + 1, l, v);
    }
  }

  // ------------------------------------------------------------ learning again

  /** What a pass does depends on the values only. */
  lemma {:induction false} SamePass(f: seq<Clause>, more: seq<Clause>, i: nat, r: Graph, g: Graph, lv: nat,
        changed: bool)
    requires f <= more && i <= |f| && Searching(f, r, lv) && Searching(more, g, lv) && g.value == r.value
    requires Pass(f, i, r, lv, changed).conflict.Some?
    ensures Pass(more, i, g, lv, changed).conflict == Pass(f, i, r, lv, changed).conflict
    decreases |f| - i
  {
    hide Searching, StatusOf, Sound;
    if i < |f| {
      PassKeeps(f, i, r, lv);
      PassKeeps(more, i, g, lv);
      match StatusOf(f[i], r.value) {
        case Conflict =>
        case Unit(l) =>
          SamePass(f, more, i + 1, Extend(r, l, lv, Some(f[i])), Extend(g, l, lv, Some(f[i])), lv, true);
        case _ => SamePass(f, more, i + 1, r, g, lv, changed);
      }
    }
  }

  /** A clause that is false already ends the first pass, at the latest. */
  lemma {:induction false} FalseConflicts(f: seq<Clause>, i: nat, g: Graph, lv: nat, changed: bool, j: nat)
    requires i <= j < |f| && Searching(f, g, lv) && Falsified(Lits(f[j]), g)
    ensures Pass(f, i, g, lv, changed).conflict.Some?
    decreases j - i
  {
    hide Searching, StatusOf, Sound, Falsified;
    PassKeeps(f, i, g, lv);
    if i == j {
      FalseStatus(f[j], g);
    } else {
      match StatusOf(f[i], g.value) {
        case Conflict =>
        case Unit(l) =>
          StillFalse(f[j], g, l, lv, f[i]);
          FalseConflicts(f, i + 1, Extend(g, l, lv, Some(f[i])), lv, true, j);
        case _ => FalseConflicts(f, i + 1, g, lv, changed, j);
      }
    }
  }

  lemma FalseStatus(c: Clause, g: Graph)
    requires Falsified(Lits(c), g)
    ensures StatusOf(c, g.value).Conflict?
  {
    OpenLitsMembers(c, g.value);
    forall l | l in c
      ensures IsFalse(l, g)
    {
      assert l in Lits(c);
    }
    SomeMember(OpenLits(c, g.value));
  }

  lemma SomeMember(c: Clause)
    ensures c != [] ==> exists l :: l in c
  {
    if c != [] {
      assert c[0] in c;
    }
  }

  lemma StillFalse(c: Clause, g: Graph, l: Lit, lv: nat, r: Clause)
    requires Falsified(Lits(c), g) && Var(l) !in g.value
    ensures Falsified(Lits(c), Extend(g, l, lv, Some(r)))
  {
  }

  /** A clause with nothing but the decision on the conflict level is learned as it is. */
  lemma {:induction false} LearnedAgain(c: Clause, g: Graph, lv: nat, k: nat)
    requires k <= |g.trail| && OnlyDecision(c, g, lv)
    ensures Learned(c, g, lv, k) == c
    decreases k
  {
    if k > 0 && |OnLevel(c, g, lv)| > 1 && !(Neg(g.trail[k-1]) in c && AtLevel(g.trail[k-1], g, lv)) {
      LearnedAgain(c, g, lv, k - 1);
    }
  }

  lemma {:induction false} CutPoint(g: Graph, b: nat, m: nat) returns (n: nat)
    requires Indexed(g) && Monotone(g) && m <= |g.trail|
    requires forall i :: m <= i < |g.trail| ==> g.level[Var(g.trail[i])] > b
    ensures CutsAt(g, b, n)
    decreases m
  {
    if m == 0 || g.level[Var(g.trail[m-1])] <= b {
      n := m;
    } else {
      n := CutPoint(g, b, m - 1);
    }
  }

  /** Back on level `b` everything there is as it was. */
  lemma CutInside(g: Graph, h: Graph, r: Graph, lv: nat, b: nat, n: nat)
    requires Indexed(g) && Indexed(h) && Indexed(r) && Adds(g, h, lv) && Inside(g, r) && b < lv
    requires (forall v :: v in r.level && r.level[v] < lv ==> v in g.level) && n <= |h.trail|
    requires forall v :: v in r.level && r.level[v] < lv && r.reason[v].None? ==> g.reason[v].None?
    requires Indexed(Cut(h, b, n))
    ensures Inside(Cut(h, b, n), r) && Covers(Cut(h, b, n), r, b)
    ensures forall v :: v in r.level && r.level[v] <= b ==> v in Cut(h, b, n).level
  {
  }

  lemma QuietSettled(c: Clause, g: Graph, r: Graph, b: nat)
    requires Indexed(g) && Indexed(r) && Inside(g, r) && QuietAt(c, r, b)
    requires forall v :: v in g.level ==> g.level[v] <= b
    requires forall v :: v in r.level && r.level[v] <= b ==> v in g.level
    ensures Settled(c, g.value)
  {
    if x :| x in c && IsTrue(x, r) && AssignedUpTo(x, r, b) {
      assert TrueIn(x, g.value);
    } else {
      var i, j :| 0 <= i < j < |c| && !AssignedUpTo(c[i], r, b) && !AssignedUpTo(c[j], r, b);
      assert Var(c[i]) !in g.value && Var(c[j]) !in g.value;
    }
  }

  lemma BackIsIdle(w: Stall, t: Search)
    requires Indexed(w.r) && Repeats(w, t) && t.lv == w.b < w.lv && w.c in w.f && QuietBelow(w.f, w.r, w.lv)
    requires forall v :: v in w.r.level && w.r.level[v] <= w.b ==> v in t.g.level
    ensures Idle(t)
  {
    hide Searching, Propagate, QuietBelow, QuietAt, Settled, Indexed, Inside;
    CopiesQuiet(w, t.f, w.b);
    SearchingDomains(t.f, t.g, t.lv);
    forall c | c in t.f
      ensures Settled(c, t.g.value)
    {
      QuietSettled(c, t.g, w.r, w.b);
    }
    SettledIsIdle(t.f, t.g, t.lv);
  }

  lemma CutSearching(w: Stall, s: Search, h: Graph, n: nat)
    requires Indexed(w.r) && Repeats(w, s) && s.lv == w.lv > w.b && Searching(s.f, h, w.lv)
    requires Adds(s.g, h, w.lv) && Indexed(h) && CutsAt(h, w.b, n) && Indexed(s.g)
    requires forall v :: v in w.r.level && w.r.level[v] < w.lv && w.r.reason[v].None? ==> s.g.reason[v].None?
    ensures Repeats(w, Searched(s.f + [w.c], Cut(h, w.b, n), w.b))
    ensures forall v :: v in w.r.level && w.r.level[v] <= w.b ==> v in Cut(h, w.b, n).level
  {
    hide Searching, Inside, Adds, Indexed;
    CutKeeps(s.f, h, w.lv, w.b, n);
    AppendKeeps(s.f, Cut(h, w.b, n), w.b, w.c);
    SearchingIndexed(s.f, Cut(h, w.b, n), w.b);
    CutInside(s.g, h, w.r, w.lv, w.b, n);
  }

  /** The jump level only depends on the levels of the clause. */
  lemma SameJump(c: Clause, g: Graph, h: Graph, lv: nat, b: nat)
    requires JumpLevel(c, g, lv, b)
    requires forall l :: l in c ==> Var(l) in g.level && Var(l) in h.level && h.level[Var(l)] == g.level[Var(l)]
    ensures JumpLevel(c, h, lv, b)
  {
    if b > 0 {
      var l :| l in c && AtLevel(l, g, b);
      assert AtLevel(l, h, b);
    }
  }

  /** Down at the conflict level nothing but the decision is new. */
  lemma AllBack(w: Stall, s: Search)
    requires Indexed(w.r) && Fresh(w.r, w.lv) && Repeats(w, s) && s.lv == w.lv
    requires forall v :: v in w.r.level ==> w.r.level[v] <= w.lv
    ensures Indexed(s.g) && s.g.value == w.r.value && s.g.level == w.r.level
    ensures forall v :: v in w.r.level && w.r.reason[v].None? ==> s.g.reason[v].None?
  {
    hide Searching;
    SearchingIndexed(s.f, s.g, s.lv);
    forall v
      ensures v in s.g.level <==> v in w.r.level
      ensures v in s.g.level ==> s.g.level[v] == w.r.level[v] && s.g.value[v] == w.r.value[v]
    {
    }
    assert s.g.level == w.r.level;
    assert s.g.value == w.r.value;
  }

  lemma ConflictAgain(w: Stall, s: Search)
    requires s.Searched? && Indexed(w.r)
    requires Searching(w.f, w.r, w.lv) && Copied(w.f, s.f, w.c) && Searching(s.f, s.g, w.lv)
    requires s.g.value == w.r.value && Pass(w.f, 0, w.r, w.lv, false).conflict == Some(w.c)
    ensures Propagate(s.f, s.g, w.lv).conflict == Some(w.c)
  {
    hide Searching, Pass;
    SamePass(w.f, s.f, 0, w.r, s.g, w.lv, false);
  }

  /** The conflict is the same, the clause is learned again, and again it leaves
      propagation nothing to do. */
  lemma LearnsAgain(order: seq<Variable>, w: Stall, s: Search) returns (t: Search)
    requires Happened(order, w) && Repeats(w, s) && s.lv == w.lv
    ensures Turn(PlainRules(order), s, t) && Repeats(w, t) && t.lv == w.b < w.lv && Stalled(s, t)
  {
    hide Searching, Propagate, QuietBelow, Pass, Inside, Chosen, Copied, Covers, VarsOf, Idle, Adds, Cut, OnlyDecision,
         Learned, Fresh, Indexed;
    var p := Propagate(s.f, s.g, s.lv);
    SearchingDomains(w.f, w.r, w.lv);
    SearchingDomains(s.f, p.g, s.lv);
    WellFormedOf(s.f, p.g, s.lv);
    AllBack(w, s);
    ConflictAgain(w, s);
    PropagateAdds(s.f, s.g, s.lv);
    ConflictLevels(w, s.g, p.g);
    LearnedAgain(w.c, p.g, w.lv, |p.g.trail|);
    var n := CutPoint(p.g, w.b, |p.g.trail|);
    t := Searched(s.f + [w.c], Cut(p.g, w.b, n), w.b);
    assert LearnedBy(PlainRules(order), w.c, p.g, w.lv) == w.c;
    JumpIsLearning(PlainRules(order), s.f, p.g, w.lv, w.c, w.b, n, t);
    CutSearching(w, s, p.g, n);
    BackIsIdle(w, t);
  }

  /** The conflict clause after propagation, seen from before. */
  lemma ConflictLevels(w: Stall, g: Graph, h: Graph)
    requires Indexed(g) && Indexed(h) && Adds(g, h, w.lv) && Indexed(w.r)
    requires g.value == w.r.value && g.level == w.r.level && Fresh(w.r, w.lv)
    requires forall v :: v in w.r.level && w.r.reason[v].None? ==> g.reason[v].None?
    requires Falsified(Lits(w.c), w.r) && JumpLevel(w.c, w.r, w.lv, w.b)
    ensures OnlyDecision(w.c, h, w.lv) && JumpLevel(w.c, h, w.lv, w.b) && w.b < w.lv
    ensures Falsified(Lits(w.c), h)
  {
    forall l | l in w.c
      ensures Var(l) in w.r.level && Var(l) in h.level && h.level[Var(l)] == w.r.level[Var(l)]
    {
      assert l in Lits(w.c) && IsFalse(l, w.r);
    }
    SameJump(w.c, w.r, h, w.lv, w.b);
  }

  // ------------------------------------------------------------ where it starts

  /** Where something is pending, propagation does something. */
  lemma PendingIsNotIdle(t: Search)
    requires t.Searched? && Searching(t.f, t.g, t.lv) && PendingIn(t.f, t.g, t.lv)
    ensures !Idle(t)
  {
    hide Searching, Propagate, PendingIn, Settled, Falsified;
    SearchingDomains(t.f, t.g, t.lv);
    var p := Propagate(t.f, t.g, t.lv);
    if p.conflict.None? {
      PropagateSettles(t.f, t.g, t.lv);
    }
    if p.g == t.g {
      PendingProgress(t.f, t.g, p.g, t.lv, p.conflict);
    }
  }

  /** Before a stall the state holds, on its level, nothing but the decision; after
      a jump its conflict would have been met before. */
  lemma StallIsFresh(s: Search, h: Graph, c: Clause)
    requires s.Searched? && Searching(s.f, s.g, s.lv) && Indexed(s.g) && Indexed(h) && Adds(s.g, h, s.lv)
    requires Fresh(s.g, s.lv) || Jumped(s.f, s.g, s.lv)
    requires c in s.f && Falsified(Lits(c), h) && OnlyDecision(c, h, s.lv)
    ensures Fresh(s.g, s.lv) && Falsified(Lits(c), s.g)
    ensures forall l :: l in c ==> Var(l) in s.g.level && h.level[Var(l)] == s.g.level[Var(l)]
  {
    hide Searching, QuietAt, Fresh;
    SearchingDomains(s.f, s.g, s.lv);
    forall l | l in c
      ensures IsFalse(l, s.g) && Var(l) in s.g.level && h.level[Var(l)] == s.g.level[Var(l)]
    {
      assert l in Lits(c) && IsFalse(l, h);
    }
    if Jumped(s.f, s.g, s.lv) {
      var n := |s.f| - 1;
      var i :| 0 <= i < |s.f| && s.f[i] == c;
      assert i < n ==> s.f[..n][i] == c;
      assert c in s.f[..n];
      QuietIsNoConflict(c, s.g, s.lv);
    }
  }

  lemma FirstConflict(f: seq<Clause>, g: Graph, lv: nat, c: Clause)
    requires Searching(f, g, lv) && c in f && Falsified(Lits(c), g) && Propagate(f, g, lv).conflict == Some(c)
    ensures Pass(f, 0, g, lv, false).conflict == Some(c)
  {
    hide Searching, Pass, Falsified;
    var j :| 0 <= j < |f| && f[j] == c;
    FalseConflicts(f, 0, g, lv, false, j);
  }

  /** A stall means that the analysis ended with the conflict clause itself, whose
      literals on the level all deny the decision. */
  lemma StallStops(order: seq<Variable>, f: seq<Clause>, g: Graph, lv: nat, c: Clause, b: nat, n: nat, t: Search)
    requires NonEmpty(f) && Searching(f, g, lv) && QuietBelow(f, g, lv) && lv > 0
    requires c in f && Falsified(Lits(c), g) && Indexed(g) && WellFormed(g)
    requires JumpsTo(f, g, lv, LearnedBy(PlainRules(order), c, g, lv), b, n, t) && Idle(t)
    ensures LearnedBy(PlainRules(order), c, g, lv) == c && OnlyDecision(c, g, lv)
  {
    hide Searching, Propagate, QuietBelow, Falsified, Reaches, SoleOn, OnlyDecision, PendingIn, Implies, ClauseVars,
         VarsOf, Learned, QuietAt, ReasonsReach, Justified;
    var rules := PlainRules(order);
    var u := LearnedBy(rules, c, g, lv);
    LearnedByCorrect(rules, f, g, lv, c);
    AfterJump(f, g, lv, u, b, n);
    if SoleOn(u, g, lv) {
      PendingIsNotIdle(t);
    }
    LowerQuiet(f, g, lv, lv - 1);
    SearchingDomains(f, g, lv);
    ConflictReaches(c, g, lv);
    ReasonsReachLevel(f, g, lv);
    AllBefore(Lits(c), g, lv);
    LearnedStops(c, g, lv, |g.trail|);
  }

  /** So a stall is the first of many. */
  lemma StallHappens(order: seq<Variable>, s: Search, t: Search) returns (w: Stall)
    requires Good(order, s) && Turn(PlainRules(order), s, t) && Stalled(s, t)
    ensures Happened(order, w) && Repeats(w, t)
  {
    hide Searching, Propagate, QuietBelow, Falsified, Chosen, Adds, OnlyDecision, VarsOf, Fresh, Jumped, Pass, Idle,
         LearnedBy, Cut, WellFormed, Indexed, QuietAt, Inside, Covers;
    GoodPropagates(order, s);
    var p := Propagate(s.f, s.g, s.lv);
    var c := p.conflict.value;
    var u := LearnedBy(PlainRules(order), c, p.g, s.lv);
    var b, n :| JumpsTo(s.f, p.g, s.lv, u, b, n, t);
    StallStops(order, s.f, p.g, s.lv, c, b, n, t);
    StallIsFresh(s, p.g, c);
    FirstConflict(s.f, s.g, s.lv, c);
    SameJump(c, p.g, s.g, s.lv, b);
    w := Stall(s.f, s.g, s.lv, b, c);
    ItselfRepeats(w, s);
    CutSearching(w, s, p.g, n);
  }

  lemma ItselfRepeats(w: Stall, s: Search)
    requires s.Searched? && w.f == s.f && w.r == s.g && w.lv == s.lv >= w.b && Searching(s.f, s.g, s.lv)
    ensures Indexed(s.g) && Repeats(w, s)
  {
  }

  // -------------------------------------------------------------------- for ever

  lemma {:induction false} OneMoreStall(order: seq<Variable>, w: Stall, run: seq<Search>) returns (more: seq<Search>)
    requires IsRun(PlainRules(order), run) && Happened(order, w) && Repeats(w, run[|run|-1])
    ensures IsRun(PlainRules(order), more) && more[0] == run[0] && Repeats(w, more[|more|-1])
    ensures Stalls(more) >= Stalls(run) + 1
    decreases w.lv - run[|run|-1].lv
  {
    hide Turn, Stalls, Stalled, Happened, Repeats;
    var s := run[|run|-1];
    LevelOf(order, w, s);
    if s.lv < w.lv {
      var t := DecidesAgain(order, w, s);
      RunGrows(PlainRules(order), run, t);
      LevelOf(order, w, t);
      more := OneMoreStall(order, w, run + [t]);
    } else {
      var t := LearnsAgain(order, w, s);
      RunGrows(PlainRules(order), run, t);
      more := run + [t];
    }
  }

  lemma LevelOf(order: seq<Variable>, w: Stall, s: Search)
    requires Happened(order, w) && Repeats(w, s)
    ensures s.Searched? && s.lv <= w.lv
  {
  }

  lemma {:induction false} ManyStalls(order: seq<Variable>, w: Stall, run: seq<Search>, n: nat)
    returns (more: seq<Search>)
    requires IsRun(PlainRules(order), run) && Happened(order, w) && Repeats(w, run[|run|-1])
    ensures IsRun(PlainRules(order), more) && more[0] == run[0] && Repeats(w, more[|more|-1])
    ensures Stalls(more) >= n
  {
    hide IsRun, Stalls, Happened, Repeats;
    if n == 0 {
      more := run;
    } else {
      more := ManyStalls(order, w, run, n - 1);
      more := OneMoreStall(order, w, more);
    }
  }

  lemma {:induction false} SomeStall(run: seq<Search>) returns (i: nat)
    requires Stalls(run) > 0
    ensures i + 1 < |run| && Stalled(run[i], run[i+1])
  {
    hide Stalled;
    i := |run| - 2;
    if !Stalled(run[i], run[i+1]) {
      i := SomeStall(run[..|run|-1]);
    }
  }

  /** One stall, and the plain solver never answers: on formulas without empty
      clauses, runs have no stall at all or any number of them. */
  lemma OneStallIsForever(order: seq<Variable>, f: seq<Clause>, bound: nat)
    requires NonEmpty(f) && forall v :: v in order ==> v in VarsOf(f)
    ensures StallsAtMost(PlainRules(order), Start(f), bound) <==> StallsAtMost(PlainRules(order), Start(f), 0)
  {
    hide Turn, Stalls, Stalled, Happened, Repeats, Good, VarsOf, NonEmpty;
    var rules := PlainRules(order);
    if run: seq<Search> :| IsRun(rules, run) && run[0] == Start(f) && Stalls(run) > 0 {
      var i := SomeStall(run);
      RunIsGood(order, run, i);
      var first := run[..i+2];
      assert Turn(rules, run[i], run[i+1]) && IsRun(rules, first);
      var w := StallHappens(order, run[i], run[i+1]);
      HappenedIndexed(order, w);
      var more := ManyStalls(order, w, first, bound + 1);
      assert more[0] == Start(f);
    }
  }

  lemma HappenedIndexed(order: seq<Variable>, w: Stall)
    requires Happened(order, w)
    ensures Indexed(w.r)
  {
  }
}
