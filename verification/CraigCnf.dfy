/** Joining the clauses of several interpolants with a trigger variable. */
module CraigCnf {
  import opened Logic
  import opened Aig

  /** The clauses of one interpolant. */
  datatype Part = Part(cnf: seq<Clause>, cnfType: CnfType)

  /** Several definitions side by side: exactly one solution for the numbers from
      `lo` to below `hi`, in which the literals have the values of the formulas. */
  ghost predicate DefinesAll(defs: seq<Clause>, ls: seq<Lit>, fs: seq<Form>, base: int, lo: int, hi: int) {
    && |ls| == |fs| && base <= lo <= hi
    && (forall m: Model :: HasExtension(defs, m, lo, hi) && OneExtension(defs, m, lo, hi))
    && (forall m: Model :: SatAll(defs, m) ==> AllValues(ls, fs, m))
    && VarsIn(defs, base, lo, hi)
  }

  ghost predicate AllValues(ls: seq<Lit>, fs: seq<Form>, m: Model)
    requires |ls| == |fs|
  {
    forall i :: 0 <= i < |ls| ==> (True(ls[i], m) <==> Holds(fs[i], m))
  }

  /** The models agree on the external variables and on the given numbers. */
  ghost predicate AgreeOn(m: Model, n: Model, base: int, lo: int, hi: int) {
    forall v :: v < base || lo <= v < hi ==> (v in m <==> v in n)
  }

  lemma SatDepends(defs: seq<Clause>, base: int, lo: int, hi: int, m: Model, n: Model)
    requires VarsIn(defs, base, lo, hi) && AgreeOn(m, n, base, lo, hi) && SatAll(defs, m)
    ensures SatAll(defs, n)
  {
    forall c | c in defs
      ensures SatClause(c, n)
    {
      var l :| l in c && True(l, m);
      assert True(l, n);
    }
  }

  lemma NoDefinitions(base: int, lo: int)
    requires base <= lo
    ensures DefinesAll([], [], [], base, lo, lo)
  {
    forall m: Model
      ensures HasExtension([], m, lo, lo) && OneExtension([], m, lo, lo)
    {
      assert IsExtension([], m, {}, lo, lo);
      forall t | Within(t, lo, lo)
        ensures t == {}
      {
        assert forall x :: x !in t;
      }
    }
  }

  function Between(t: set<int>, lo: int, hi: int): set<int> {
    set v | v in t && lo <= v < hi
  }

  lemma ExtAgrees(m: Model, t: set<int>, lo: int, mid: int, hi: int, base: int)
    requires base <= lo <= mid <= hi && Within(t, lo, hi)
    ensures AgreeOn(Ext(m, t, lo, hi), Ext(m, Between(t, lo, mid), lo, mid), base, lo, mid)
    ensures AgreeOn(Ext(m, Between(t, lo, mid), lo, mid), Ext(m, t, lo, hi), base, lo, mid)
    ensures AgreeOn(Ext(m, t, lo, hi), Ext(m, Between(t, mid, hi), mid, hi), base, mid, hi)
    ensures AgreeOn(Ext(m, Between(t, mid, hi), mid, hi), Ext(m, t, lo, hi), base, mid, hi)
  {
  }

  lemma SatSplit(d: seq<Clause>, e: seq<Clause>, m: Model)
    ensures SatAll(d + e, m) <==> SatAll(d, m) && SatAll(e, m)
  {
    if SatAll(d + e, m) {
      forall c | c in d ensures SatClause(c, m) { assert c in d + e; }
      forall c | c in e ensures SatClause(c, m) { assert c in d + e; }
    }
  }

  lemma JoinedExtension(d: seq<Clause>, e: seq<Clause>, base: int, lo: int, mid: int, hi: int, m: Model, t: set<int>)
    requires VarsIn(d, base, lo, mid) && VarsIn(e, base, mid, hi) && base <= lo <= mid <= hi && Within(t, lo, hi)
    ensures IsExtension(d + e, m, t, lo, hi) <==>
      IsExtension(d, m, Between(t, lo, mid), lo, mid) && IsExtension(e, m, Between(t, mid, hi), mid, hi)
  {
    hide SatAll, Ext, VarsIn, AgreeOn;
    var n := Ext(m, t, lo, hi);
    var n1, n2 := Ext(m, Between(t, lo, mid), lo, mid), Ext(m, Between(t, mid, hi), mid, hi);
    ExtAgrees(m, t, lo, mid, hi, base);
    SatSplit(d, e, n);
    if SatAll(d, n) { SatDepends(d, base, lo, mid, n, n1); }
    if SatAll(d, n1) { SatDepends(d, base, lo, mid, n1, n); }
    if SatAll(e, n) { SatDepends(e, base, mid, hi, n, n2); }
    if SatAll(e, n2) { SatDepends(e, base, mid, hi, n2, n); }
  }

  lemma BetweenParts(t: set<int>, u: set<int>, lo: int, mid: int, hi: int)
    requires Within(t, lo, mid) && Within(u, mid, hi) && lo <= mid <= hi
    ensures Within(t + u, lo, hi) && Between(t + u, lo, mid) == t && Between(t + u, mid, hi) == u
  {
  }

  lemma BetweenSame(t: set<int>, u: set<int>, lo: int, mid: int, hi: int)
    requires Within(t, lo, hi) && Within(u, lo, hi) && lo <= mid <= hi
    requires Between(t, lo, mid) == Between(u, lo, mid) && Between(t, mid, hi) == Between(u, mid, hi)
    ensures t == u
  {
    forall v
      ensures v in t <==> v in u
    {
      assert v in t ==> v in Between(t, lo, mid) || v in Between(t, mid, hi);
      assert v in u ==> v in Between(u, lo, mid) || v in Between(u, mid, hi);
    }
  }

  /** Definitions with separate numbers can be put side by side. */
  lemma DefinesMore(d: seq<Clause>, ls: seq<Lit>, fs: seq<Form>, e: seq<Clause>, l: Lit, f: Form, base: int, lo: int,
        mid: int, hi: int)
    requires DefinesAll(d, ls, fs, base, lo, mid) && Defines(e, l, base, mid, hi, f)
    ensures DefinesAll(d + e, ls + [l], fs + [f], base, lo, hi)
  {
    hide SatAll, Ext, Within, IsExtension, VarsIn;
    MoreVars(d, e, base, lo, mid, hi);
    forall m: Model
      ensures HasExtension(d + e, m, lo, hi) && OneExtension(d + e, m, lo, hi)
    {
      JoinedUnique(d, e, base, lo, mid, hi, m);
    }
    forall m: Model | SatAll(d + e, m)
      ensures AllValues(ls + [l], fs + [f], m)
    {
      SatSplit(d, e, m);
    }
  }

  lemma MoreVars(d: seq<Clause>, e: seq<Clause>, base: int, lo: int, mid: int, hi: int)
    requires VarsIn(d, base, lo, mid) && VarsIn(e, base, mid, hi) && lo <= mid <= hi
    ensures VarsIn(d + e, base, lo, hi)
  {
  }

  lemma JoinedUnique(d: seq<Clause>, e: seq<Clause>, base: int, lo: int, mid: int, hi: int, m: Model)
    requires VarsIn(d, base, lo, mid) && VarsIn(e, base, mid, hi) && base <= lo <= mid <= hi
    requires HasExtension(d, m, lo, mid) && OneExtension(d, m, lo, mid)
    requires HasExtension(e, m, mid, hi) && OneExtension(e, m, mid, hi)
    ensures HasExtension(d + e, m, lo, hi) && OneExtension(d + e, m, lo, hi)
  {
    hide SatAll, Ext, VarsIn, Between;
    var t :| IsExtension(d, m, t, lo, mid);
    var u :| IsExtension(e, m, u, mid, hi);
    BetweenParts(t, u, lo, mid, hi);
    JoinedExtension(d, e, base, lo, mid, hi, m, t + u);
    forall x, y | IsExtension(d + e, m, x, lo, hi) && IsExtension(d + e, m, y, lo, hi)
      ensures x == y
    {
      JoinedExtension(d, e, base, lo, mid, hi, m, x);
      JoinedExtension(d, e, base, lo, mid, hi, m, y);
      BetweenSame(x, y, lo, mid, hi);
    }
  }

  // ------------------------------------------------------------------ trigger

  function Signed(l: Lit, positive: bool): Lit {
    if positive then l else Neg(l)
  }

  ghost predicate AllTrue(xs: seq<Lit>, m: Model) {
    forall i :: 0 <= i < |xs| ==> True(xs[i], m)
  }

  /** The binary clauses make all of `xs` true where `s` is. */
  ghost predicate Enables(cnf: seq<Clause>, defs: seq<Clause>, s: Lit, xs: seq<Lit>) {
    forall m: Model :: SatAll(cnf, m) <==> SatAll(defs, m) && (True(s, m) ==> AllTrue(xs, m))
  }

  /** The clause that makes `s` true where all of `xs` are. */
  function TriggerClause(s: Lit, xs: seq<Lit>): Clause {
    [s] + seq(|xs|, i requires 0 <= i < |xs| => Neg(xs[i]))
  }

  lemma TriggerClauseHolds(s: Lit, xs: seq<Lit>, m: Model)
    ensures SatClause(TriggerClause(s, xs), m) <==> (AllTrue(xs, m) ==> True(s, m))
  {
    var c := TriggerClause(s, xs);
    assert forall i :: 0 <= i < |xs| ==> c[i + 1] == Neg(xs[i]);
    if AllTrue(xs, m) && !True(s, m) {
      forall l | l in c
        ensures !True(l, m)
      {
        var j :| 0 <= j < |c| && c[j] == l;
        assert j > 0 ==> l == Neg(xs[j-1]) && True(xs[j-1], m);
      }
    }
    if !AllTrue(xs, m) {
      var i :| 0 <= i < |xs| && !True(xs[i], m);
      assert c[i + 1] in c;
    }
    assert c[0] in c;
  }

  lemma EnablesMore(cnf: seq<Clause>, defs: seq<Clause>, s: Lit, xs: seq<Lit>, part: seq<Clause>, x: Lit)
    requires Enables(cnf, defs, s, xs)
    ensures Enables(cnf + part + [[Neg(s), x]], defs + part, s, xs + [x])
  {
    forall m: Model
      ensures SatAll(cnf + part + [[Neg(s), x]], m) <==> SatAll(defs + part, m) && (True(s, m) ==> AllTrue(xs + [x], m))
    {
      SatSplit(cnf, part, m);
      SatSplit(defs, part, m);
      SatAppend(cnf + part, [Neg(s), x], m);
      var c := [Neg(s), x];
      assert SatClause(c, m) <==> True(c[0], m) || True(c[1], m);
      assert AllTrue(xs + [x], m) <==> AllTrue(xs, m) && True(x, m) by {
        if AllTrue(xs + [x], m) {
          assert forall i :: 0 <= i < |xs| ==> xs[i] == (xs + [x])[i];
          assert (xs + [x])[|xs|] == x;
        }
      }
    }
  }

  /** What the parts read so far say: all of them hold, or none of them. */
  ghost predicate Uniform(fs: seq<Form>, union: bool, m: Model) {
    forall i :: 0 <= i < |fs| ==> (Holds(fs[i], m) <==> union)
  }

  /** The interpolants on whose literals `xs` the trigger depends have the values
      `xs`, counted negatively for an intersection; the others are neutral. */
  ghost predicate Summary(fs: seq<Form>, gs: seq<Form>, union: bool) {
    forall m: Model :: Uniform(fs, union, m) <==> Uniform(gs, union, m)
  }

  ghost predicate AllEncode(parts: seq<Part>, fs: seq<Form>, bounds: seq<int>, base: int) {
    && |fs| == |parts| && |bounds| == |parts| + 1
    && (forall k :: 0 <= k < |parts| ==> EncodesPart(parts, fs, bounds, base, k))
    && base <= bounds[0]
  }

  /** Each part has its own numbers, after those of the parts before it. */
  ghost predicate EncodesPart(parts: seq<Part>, fs: seq<Form>, bounds: seq<int>, base: int, k: nat)
    requires k < |parts| == |fs| && |bounds| == |parts| + 1
  {
    && Encodes(parts[k].cnfType, parts[k].cnf, base, bounds[k], bounds[k+1], fs[k])
    && (parts[k].cnfType != Normal ==> bounds[k] == bounds[k+1]) && bounds[k] <= bounds[k+1]
  }

  /** The conjunction for a union of the clauses, the disjunction otherwise. */
  function Joined(fs: seq<Form>, union: bool): Form {
    if union then Conj(fs) else Disj(fs)
  }

  lemma JoinedHolds(fs: seq<Form>, union: bool, m: Model)
    ensures Uniform(fs, union, m) <==> (Holds(Joined(fs, union), m) <==> union)
  {
    ConjHolds(fs, m);
    DisjHolds(fs, m);
  }

  lemma JoinedSupport(fs: seq<Form>, union: bool)
    ensures forall v :: v in Support(Joined(fs, union)) <==> exists i :: 0 <= i < |fs| && v in Support(fs[i])
  {
    ConjSupport(fs);
    DisjSupport(fs);
  }

  /** The trigger, numbered `hi`, stands for the joined formulas. */
  lemma TriggerDefines(cnf: seq<Clause>, defs: seq<Clause>, union: bool, ls: seq<Lit>, gs: seq<Form>, fs: seq<Form>,
      base: int, lo: int, hi: int, t: Lit, xs: seq<Lit>)
    requires DefinesAll(defs, ls, gs, base, lo, hi) && t == hi && 0 < base
    requires |xs| == |ls| && forall i :: 0 <= i < |xs| ==> xs[i] == Signed(ls[i], union)
    requires Enables(cnf, defs, Signed(t, union), xs) && Summary(fs, gs, union)
    requires VarsIn(cnf + [TriggerClause(Signed(t, union), xs)], base, lo, hi + 1)
    requires forall i :: 0 <= i < |fs| ==> SupportBelow(fs[i], base)
    ensures Defines(cnf + [TriggerClause(Signed(t, union), xs)], t, base, lo, hi + 1, Joined(fs, union))
  {
    hide SatAll, Ext, VarsIn, TriggerClause, Joined, Enables, DefinesAll, Summary, HasExtension, OneExtension,
         SupportBelow;
    var s := Signed(t, union);
    var all := cnf + [TriggerClause(s, xs)];
    var f := Joined(fs, union);
    var up := hi + 1;
    DefinesAllFacts(defs, ls, gs, base, lo, hi);
    forall m: Model
      ensures SatAll(all, m) <==> SatAll(defs, m) && (hi in m <==> Holds(f, m))
    {
      TriggerValue(cnf, defs, union, ls, gs, fs, base, lo, hi, t, xs, m);
    }
    JoinedBelow(fs, union, base);
    forall m: Model
      ensures HasExtension(all, m, lo, up) && OneExtension(all, m, lo, up)
    {
      OneMoreNumber(defs, all, f, base, lo, hi, m);
    }
  }

  lemma DefinesAllFacts(defs: seq<Clause>, ls: seq<Lit>, fs: seq<Form>, base: int, lo: int, hi: int)
    requires DefinesAll(defs, ls, fs, base, lo, hi)
    ensures VarsIn(defs, base, lo, hi) && base <= lo <= hi && |ls| == |fs|
    ensures forall m: Model :: HasExtension(defs, m, lo, hi) && OneExtension(defs, m, lo, hi)
  {
  }

  lemma TriggerValue(cnf: seq<Clause>, defs: seq<Clause>, union: bool, ls: seq<Lit>, gs: seq<Form>, fs: seq<Form>,
      base: int, lo: int, hi: int, t: Lit, xs: seq<Lit>, m: Model)
    requires DefinesAll(defs, ls, gs, base, lo, hi) && t > 0
    requires |xs| == |ls| && forall i :: 0 <= i < |xs| ==> xs[i] == Signed(ls[i], union)
    requires Enables(cnf, defs, Signed(t, union), xs) && Summary(fs, gs, union)
    ensures SatAll(cnf + [TriggerClause(Signed(t, union), xs)], m) <==>
      SatAll(defs, m) && (t in m <==> Holds(Joined(fs, union), m))
  {
    hide SatAll, Ext, VarsIn, TriggerClause, Joined, Uniform, AllTrue, AllValues, HasExtension, OneExtension;
    var s := Signed(t, union);
    SatAppend(cnf, TriggerClause(s, xs), m);
    TriggerClauseHolds(s, xs, m);
    JoinedHolds(fs, union, m);
    assert SatAll(cnf, m) <==> SatAll(defs, m) && (True(s, m) ==> AllTrue(xs, m));
    if SatAll(defs, m) {
      assert AllValues(ls, gs, m);
      ValuesUniform(ls, gs, xs, union, m);
      assert Uniform(fs, union, m) <==> Uniform(gs, union, m);
    }
  }

  lemma ValuesUniform(ls: seq<Lit>, gs: seq<Form>, xs: seq<Lit>, union: bool, m: Model)
    requires |ls| == |gs| == |xs| && AllValues(ls, gs, m)
    requires forall i :: 0 <= i < |xs| ==> xs[i] == Signed(ls[i], union)
    ensures AllTrue(xs, m) <==> Uniform(gs, union, m)
  {
    forall i | 0 <= i < |xs|
      ensures True(xs[i], m) <==> (Holds(gs[i], m) <==> union)
    {
      assert True(ls[i], m) <==> Holds(gs[i], m);
    }
  }

  lemma JoinedBelow(fs: seq<Form>, union: bool, base: int)
    requires forall i :: 0 <= i < |fs| ==> SupportBelow(fs[i], base)
    ensures SupportBelow(Joined(fs, union), base)
  {
    JoinedSupport(fs, union);
  }

  /** A variable defined by a formula over the external ones keeps extensions
      unique. */
  lemma OneMoreNumber(defs: seq<Clause>, all: seq<Clause>, f: Form, base: int, lo: int, hi: int, m: Model)
    requires VarsIn(defs, base, lo, hi) && 0 < base <= lo <= hi && SupportBelow(f, base)
    requires HasExtension(defs, m, lo, hi) && OneExtension(defs, m, lo, hi)
    requires forall n: Model :: SatAll(all, n) <==> SatAll(defs, n) && (hi in n <==> Holds(f, n))
    ensures HasExtension(all, m, lo, hi + 1) && OneExtension(all, m, lo, hi + 1)
  {
    hide SatAll, VarsIn;
    var t :| IsExtension(defs, m, t, lo, hi);
    var u := t + if Holds(f, m) then {hi} else {};
    OneMoreSat(defs, f, base, lo, hi, m, u);
    assert Between(u, lo, hi) == t;
    var up := hi + 1;
    forall x | IsExtension(all, m, x, lo, up)
      ensures x == u
    {
      OneMoreSat(defs, f, base, lo, hi, m, x);
      assert Within(Between(x, lo, hi), lo, hi);
      assert IsExtension(defs, m, Between(x, lo, hi), lo, hi);
      assert Between(x, lo, hi) == t;
      forall v
        ensures v in x <==> v in u
      {
        assert v in x ==> v == hi || v in Between(x, lo, hi);
        assert v in t ==> v in Between(x, lo, hi);
      }
    }
    assert IsExtension(all, m, u, lo, hi + 1);
  }

  lemma OneMoreSat(defs: seq<Clause>, f: Form, base: int, lo: int, hi: int, m: Model, x: set<int>)
    requires VarsIn(defs, base, lo, hi) && 0 < base <= lo <= hi && SupportBelow(f, base) && Within(x, lo, hi + 1)
    ensures SatAll(defs, Ext(m, x, lo, hi + 1)) <==> SatAll(defs, Ext(m, Between(x, lo, hi), lo, hi))
    ensures Holds(f, Ext(m, x, lo, hi + 1)) <==> Holds(f, m)
    ensures hi in Ext(m, x, lo, hi + 1) <==> hi in x
  {
    hide SatAll, VarsIn;
    var n, k := Ext(m, x, lo, hi + 1), Ext(m, Between(x, lo, hi), lo, hi);
    ExtAgrees(m, x, lo, hi, hi + 1, base);
    if SatAll(defs, n) { SatDepends(defs, base, lo, hi, n, k); }
    if SatAll(defs, k) { SatDepends(defs, base, lo, hi, k, n); }
    SupportDecides(f, m, n);
  }

  /** `UNION` and `INTERSECTION` of at least two interpolants: constants decide or
      drop out; a trigger variable stands for the rest. */
  method Join(parts: seq<Part>, union: bool, nextFreeVariable0: int, ghost fs: seq<Form>, ghost bounds: seq<int>,
        ghost base: int)
    returns (cnfType: CnfType, cnf: seq<Clause>, nextFreeVariable: int)
    requires |parts| >= 2 && AllEncode(parts, fs, bounds, base) && 0 < base && bounds[|parts|] == nextFreeVariable0
    requires forall i :: 0 <= i < |fs| ==> SupportBelow(fs[i], base)
    ensures nextFreeVariable0 <= nextFreeVariable && bounds[0] <= nextFreeVariable && cnfType != NoCnf
    ensures Encodes(cnfType, cnf, base, bounds[0], nextFreeVariable, Joined(fs, union))
  {
    hide Encodes, Joined, DefinesAll, Defines, Enables, TriggerClause, VarsIn, Summary, SupportBelow;
    var absorbing, neutral := if union then Constant0 else Constant1, if union then Constant1 else Constant0;
    nextFreeVariable := nextFreeVariable0;
    BoundsGrow(parts, fs, bounds, base);
    var allNeutral := true;
    for k := 0 to |parts|
      invariant allNeutral <==> forall i :: 0 <= i < k ==> parts[i].cnfType == neutral
      invariant forall i :: 0 <= i < k ==> parts[i].cnfType != absorbing
    {
      if parts[k].cnfType == absorbing {
        AbsorbingPart(parts, fs, bounds, base, union, k, nextFreeVariable);
        return absorbing, parts[k].cnf, nextFreeVariable;
      }
      allNeutral := allNeutral && parts[k].cnfType == neutral;
    }
    if allNeutral {
      NeutralParts(parts, fs, bounds, base, union, nextFreeVariable);
      return neutral, if union then [] else [[]], nextFreeVariable;
    }
    nextFreeVariable := nextFreeVariable + 1;
    cnf := WithTrigger(parts, union, nextFreeVariable0, fs, bounds, base);
    cnfType := Normal;
  }

  /** The clauses of the normal parts, each enabled by the trigger, then the
      trigger clause and the trigger itself. */
  method WithTrigger(parts: seq<Part>, union: bool, t: Lit, ghost fs: seq<Form>, ghost bounds: seq<int>,
        ghost base: int)
    returns (cnf: seq<Clause>)
    requires |parts| >= 1 && AllEncode(parts, fs, bounds, base) && 0 < base && bounds[|parts|] == t
    requires forall i :: 0 <= i < |fs| ==> SupportBelow(fs[i], base)
    requires forall i :: 0 <= i < |parts| ==> parts[i].cnfType != (if union then Constant0 else Constant1)
    ensures Encodes(Normal, cnf, base, bounds[0], t + 1, Joined(fs, union))
  {
    hide Encodes, AllEncode, Joined, DefinesAll, Defines, Enables, TriggerClause, VarsIn, Summary, SupportBelow;
    var s := Signed(t, union);
    var triggerClause := [s];
    cnf := [];
    ghost var defs: seq<Clause>, ls: seq<Lit>, gs: seq<Form>, xs: seq<Lit> := [], [], [], [];
    BoundsGrow(parts, fs, bounds, base);
    NoDefinitions(base, bounds[0]);
    NothingRead(s, base, bounds[0], t, union);
    for k := 0 to |parts|
      invariant |bounds| == |parts| + 1 && |fs| == |parts|
      invariant DefinesAll(defs, ls, gs, base, bounds[0], bounds[k])
      invariant Enables(cnf, defs, s, xs) && triggerClause == TriggerClause(s, xs)
      invariant |xs| == |ls| && forall i :: 0 <= i < |xs| ==> xs[i] == Signed(ls[i], union)
      invariant Summary(fs[..k], gs, union) && VarsIn(cnf, base, bounds[0], t + 1)
      invariant VarsIn([triggerClause], base, bounds[0], t + 1)
    {
      if parts[k].cnfType == Normal {
        NormalPart(parts, fs, bounds, base, k);
        var part := parts[k].cnf;
        var n := |part| - 1;
        var l := part[n][0];
        var x := Signed(l, union);
        ghost var cnf0 := cnf;
        cnf := CopyClauses(cnf, part);
        DefinesMore(defs, ls, gs, part[..n], l, fs[k], base, bounds[0], bounds[k], bounds[k+1]);
        EnablesMore(cnf0, defs, s, xs, part[..n], x);
        SummaryMore(fs, k, gs, union);
        TriggerMore(s, xs, x);
        PartVars(cnf0, part[..n], triggerClause, s, x, l, base, bounds[0], bounds[k], bounds[k+1], t, fs[k]);
        cnf := cnf + [[Neg(s), x]];
        triggerClause := triggerClause + [Neg(x)];
        defs, ls, gs, xs := defs + part[..n], ls + [l], gs + [fs[k]], xs + [x];
      } else {
        ConstantPart(parts, fs, bounds, base, union, k, gs);
      }
    }
    assert fs[..|parts|] == fs;
    AllVars(cnf, triggerClause, base, bounds[0], t + 1);
    TriggerDefines(cnf, defs, union, ls, gs, fs, base, bounds[0], t, t, xs);
    cnf := cnf + [triggerClause];
    NormalEncodes(cnf, t, base, bounds[0], t + 1, Joined(fs, union));
    cnf := cnf + [[t]];
  }

  /** All clauses of a part but the last. */
  method CopyClauses(cnf0: seq<Clause>, part: seq<Clause>) returns (cnf: seq<Clause>)
    requires |part| > 0
    ensures cnf == cnf0 + part[..|part|-1]
  {
    cnf := cnf0;
    for i := 0 to |part| - 1
      invariant cnf == cnf0 + part[..i]
    {
      cnf := cnf + [part[i]];
    }
  }

  lemma {:induction false} BoundsFrom(parts: seq<Part>, fs: seq<Form>, bounds: seq<int>, base: int, j: nat, k: nat)
    requires AllEncode(parts, fs, bounds, base) && j <= k <= |parts|
    ensures bounds[j] <= bounds[k]
    decreases k
  {
    if j < k {
      BoundsFrom(parts, fs, bounds, base, j, k - 1);
      assert EncodesPart(parts, fs, bounds, base, k - 1);
    }
  }

  lemma BoundsGrow(parts: seq<Part>, fs: seq<Form>, bounds: seq<int>, base: int)
    requires AllEncode(parts, fs, bounds, base)
    ensures |bounds| == |parts| + 1 && |fs| == |parts| && base <= bounds[0]
    ensures forall k :: 0 <= k <= |parts| ==> bounds[0] <= bounds[k] <= bounds[|parts|]
  {
    forall k | 0 <= k <= |parts|
      ensures bounds[0] <= bounds[k] <= bounds[|parts|]
    {
      BoundsFrom(parts, fs, bounds, base, 0, k);
      BoundsFrom(parts, fs, bounds, base, k, |parts|);
    }
  }

  lemma NothingRead(s: Lit, base: int, lo: int, t: int, union: bool)
    requires Var(s) == t && base <= lo <= t
    ensures Enables([], [], s, []) && [s] == TriggerClause(s, []) && Summary([], [], union)
    ensures VarsIn([], base, lo, t + 1) && VarsIn([[s]], base, lo, t + 1)
  {
  }

  lemma NormalPart(parts: seq<Part>, fs: seq<Form>, bounds: seq<int>, base: int, k: nat)
    requires AllEncode(parts, fs, bounds, base) && k < |parts| && parts[k].cnfType == Normal
    ensures var part := parts[k].cnf;
            && |part| > 0 && |part[|part|-1]| == 1
            && Defines(part[..|part|-1], part[|part|-1][0], base, bounds[k], bounds[k+1], fs[k])
    ensures bounds[0] <= bounds[k] <= bounds[k+1] <= bounds[|parts|]
  {
    BoundsGrow(parts, fs, bounds, base);
    assert EncodesPart(parts, fs, bounds, base, k);
  }

  lemma SummaryMore(fs: seq<Form>, k: nat, gs: seq<Form>, union: bool)
    requires k < |fs| && Summary(fs[..k], gs, union)
    ensures Summary(fs[..k+1], gs + [fs[k]], union)
  {
    forall m: Model
      ensures Uniform(fs[..k+1], union, m) <==> Uniform(gs + [fs[k]], union, m)
    {
      UniformAppend(fs[..k], fs[k], union, m);
      UniformAppend(gs, fs[k], union, m);
      assert fs[..k+1] == fs[..k] + [fs[k]];
      assert Uniform(fs[..k], union, m) <==> Uniform(gs, union, m);
    }
  }

  lemma UniformAppend(fs: seq<Form>, f: Form, union: bool, m: Model)
    ensures Uniform(fs + [f], union, m) <==> Uniform(fs, union, m) && (Holds(f, m) <==> union)
  {
    var gs := fs + [f];
    assert forall i :: 0 <= i < |fs| ==> gs[i] == fs[i];
    assert gs[|fs|] == f;
  }

  lemma ConstantPart(parts: seq<Part>, fs: seq<Form>, bounds: seq<int>, base: int, union: bool, k: nat, gs: seq<Form>)
    requires AllEncode(parts, fs, bounds, base) && k < |parts| && Summary(fs[..k], gs, union)
    requires parts[k].cnfType != Normal && parts[k].cnfType != (if union then Constant0 else Constant1)
    ensures Summary(fs[..k+1], gs, union) && bounds[k+1] == bounds[k]
  {
    forall m: Model
      ensures Uniform(fs[..k+1], union, m) <==> Uniform(gs, union, m)
    {
      UniformAppend(fs[..k], fs[k], union, m);
      assert fs[..k+1] == fs[..k] + [fs[k]];
      assert Uniform(fs[..k], union, m) <==> Uniform(gs, union, m);
      assert EncodesPart(parts, fs, bounds, base, k);
    }
    assert EncodesPart(parts, fs, bounds, base, k);
  }

  lemma TriggerMore(s: Lit, xs: seq<Lit>, x: Lit)
    ensures TriggerClause(s, xs + [x]) == TriggerClause(s, xs) + [Neg(x)]
  {
  }

  lemma PartVars(cnf: seq<Clause>, part: seq<Clause>, trigger: Clause, s: Lit, x: Lit, l: Lit,
      base: int, lo: int, mid: int, hi: int, t: int, f: Form)
    requires VarsIn(cnf, base, lo, t + 1) && VarsIn([trigger], base, lo, t + 1) && Defines(part, l, base, mid, hi, f)
    requires lo <= mid <= hi <= t && Var(s) == t && Var(x) == Var(l)
    ensures VarsIn(cnf + part + [[Neg(s), x]], base, lo, t + 1) && VarsIn([trigger + [Neg(x)]], base, lo, t + 1)
  {
    assert trigger in [trigger];
    forall y | y in trigger + [Neg(x)]
      ensures Var(y) < base || lo <= Var(y) < t + 1
    {
    }
  }

  lemma AllVars(cnf: seq<Clause>, trigger: Clause, base: int, lo: int, hi: int)
    requires VarsIn(cnf, base, lo, hi) && VarsIn([trigger], base, lo, hi)
    ensures VarsIn(cnf + [trigger], base, lo, hi)
  {
    assert trigger in [trigger];
  }

  lemma NormalEncodes(defs: seq<Clause>, t: Lit, base: int, lo: int, hi: int, f: Form)
    requires Defines(defs, t, base, lo, hi, f)
    ensures Encodes(Normal, defs + [[t]], base, lo, hi, f)
  {
    assert (defs + [[t]])[..|defs|] == defs;
  }

  lemma AbsorbingPart(parts: seq<Part>, fs: seq<Form>, bounds: seq<int>, base: int, union: bool, k: nat, hi: int)
    requires AllEncode(parts, fs, bounds, base) && k < |parts|
    requires parts[k].cnfType == if union then Constant0 else Constant1
    ensures Encodes(parts[k].cnfType, parts[k].cnf, base, bounds[0], hi, Joined(fs, union))
  {
    assert EncodesPart(parts, fs, bounds, base, k);
    forall m: Model
      ensures Holds(Joined(fs, union), m) <==> !union
    {
      JoinedHolds(fs, union, m);
      assert !(Holds(fs[k], m) <==> union);
    }
  }

  lemma NeutralParts(parts: seq<Part>, fs: seq<Form>, bounds: seq<int>, base: int, union: bool, hi: int)
    requires AllEncode(parts, fs, bounds, base)
    requires forall i :: 0 <= i < |parts| ==> parts[i].cnfType == if union then Constant1 else Constant0
    ensures Encodes(if union then Constant1 else Constant0, if union then [] else [[]], base, bounds[0], hi,
      Joined(fs, union))
  {
    forall m: Model
      ensures Holds(Joined(fs, union), m) <==> union
    {
      JoinedHolds(fs, union, m);
      forall i | 0 <= i < |fs|
        ensures Holds(fs[i], m) <==> union
      {
        assert EncodesPart(parts, fs, bounds, base, i);
      }
    }
  }
}
