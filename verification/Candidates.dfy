/** Which clauses a round of globally blocked clause elimination tries, and in which
    order (condition_round of condition.cpp). */
module Candidates {
  import opened Logic
  import opened Reconstruction
  import opened Clauses
  import opened Autarky

  /** What the total assignment of a round is made from. */
  datatype Setting = Setting(literals: map<nat, Clause>, garbage: set<nat>, root: map<int, bool>, active: set<int>,
    frozen: set<int>, phases: map<int, bool>, maxVar: nat, vals: map<int, bool>)

  function Phase(idx: int, phases: map<int, bool>): bool {
    idx in phases ==> phases[idx]
  }

  /** The variables that get a value besides those of level zero. */
  ghost predicate Decidable(v: int, s: Setting) {
    1 <= v <= s.maxVar && v in s.active && v !in s.frozen && v !in s.root
  }

  /** Besides the root-level values exactly the active variables that are not frozen
      are assigned: as before, or else to their saved phases. */
  ghost predicate Total(a: map<int, bool>, s: Setting) {
    && (forall v :: v in a <==> Decidable(v, s))
    && forall v :: v in a ==> a[v] == if v in s.vals then s.vals[v] else Phase(v, s.phases)
  }

  /** Not satisfied at root level, but by the rest of the assignment. */
  ghost predicate IsCandidate(c: nat, s: Setting, a: map<int, bool>) {
    c in s.literals && c !in s.garbage && !HasTrue(s.literals[c], s.root) && HasTrue(s.literals[c], a)
  }

  /** The candidates among clauses `cs`, in their order. */
  ghost function CandidatesOf(cs: seq<nat>, s: Setting, a: map<int, bool>): seq<nat> {
    if cs == [] then []
    else
      var c := cs[|cs|-1];
      CandidatesOf(cs[..|cs|-1], s, a) + if IsCandidate(c, s, a) then [c] else []
  }

  lemma OneCandidate(cs: seq<nat>, c: nat, s: Setting, a: map<int, bool>)
    ensures CandidatesOf(cs + [c], s, a) == CandidatesOf(cs, s, a) + if IsCandidate(c, s, a) then [c] else []
  {
    assert (cs + [c])[..|cs|] == cs;
  }

  /** The clauses that take part in a round. */
  ghost function Unsatisfied(s: Setting): set<nat> {
    set c | c in s.literals && c !in s.garbage && !HasTrue(s.literals[c], s.root)
  }

  ghost function Refs(cs: seq<nat>): set<nat> {
    set c | c in cs
  }

  // -------------------------------------------------------------------- order

  /** The clauses of the list that are not in `out`, in their order. */
  ghost function NotIn(cs: seq<nat>, out: set<nat>): seq<nat> {
    if cs == [] then []
    else
      var c := cs[|cs|-1];
      NotIn(cs[..|cs|-1], out) + if c in out then [] else [c]
  }

  /** The clauses of the list that are in `ins`, in their order. */
  ghost function Among(cs: seq<nat>, ins: set<nat>): seq<nat> {
    if cs == [] then []
    else
      var c := cs[|cs|-1];
      Among(cs[..|cs|-1], ins) + if c in ins then [c] else []
  }

  lemma OneMore(cs: seq<nat>, c: nat, s: set<nat>)
    ensures NotIn(cs + [c], s) == NotIn(cs, s) + if c in s then [] else [c]
    ensures Among(cs + [c], s) == Among(cs, s) + if c in s then [c] else []
  {
    assert (cs + [c])[..|cs|] == cs;
  }

  lemma {:induction false} NotInPrefix(cs: seq<nat>, k: nat, out: set<nat>)
    requires k <= |cs|
    ensures NotIn(cs[..k], out) <= NotIn(cs, out)
  {
    if k < |cs| {
      var less := cs[..|cs|-1];
      NotInPrefix(less, k, out);
      assert less[..k] == cs[..k];
    } else {
      assert cs[..k] == cs;
    }
  }

  /** Nothing is lost: the lists are what is kept and what is not, and positions
      in the parts are in the order of the positions in the list. */
  lemma {:induction false} NotInAt(cs: seq<nat>, out: set<nat>) returns (ps: seq<nat>)
    ensures |ps| == |NotIn(cs, out)| && forall i :: 0 <= i < |ps| ==> ps[i] < |cs| && cs[ps[i]] == NotIn(cs, out)[i]
    ensures forall i, j :: 0 <= i < j < |ps| ==> ps[i] < ps[j]
    ensures forall k :: 0 <= k < |cs| ==> (k in ps <==> cs[k] !in out)
  {
    ps := [];
    if cs != [] {
      var k := |cs| - 1;
      ps := NotInAt(cs[..k], out);
      ghost var qs := ps;
      if cs[k] !in out {
        ps := ps + [k];
      }
      forall j | 0 <= j < |cs|
        ensures j in ps <==> cs[j] !in out
      {
        if j < k {
          assert cs[..k][j] == cs[j];
        }
      }
    }
  }

  /** The order in which a round tries its candidates: those not tried before first,
      without reasons. */
  ghost function Order(candidates: seq<nat>, conditioned: set<nat>, reasons: set<nat>): seq<nat> {
    NotIn(NotIn(candidates, conditioned) + Among(candidates, conditioned), reasons)
  }

  /** If all candidates have been tried before none counts as tried any more. */
  ghost function StillTried(candidates: seq<nat>, conditioned: set<nat>): set<nat> {
    if NotIn(candidates, conditioned) == [] then conditioned - Refs(candidates) else conditioned
  }

  // ------------------------------------------------------------------- trials

  datatype Trial = Trial(c: nat, blocked: bool)

  ghost function Tried(ts: seq<Trial>): seq<nat> {
    seq(|ts|, i requires 0 <= i < |ts| => ts[i].c)
  }

  /** A candidate goes exactly if some split blocks it; only for the last one the
      limit may have been hit. */
  ghost predicate Outcomes(ts: seq<Trial>, within: bool, rs: set<nat>, literals: map<nat, Clause>, vals: map<int, bool>,
        bits: set<int>) {
    forall i :: 0 <= i < |ts| ==>
      && ts[i].c in literals
      && (ts[i].blocked <==> Blockable(literals[ts[i].c], rs, literals, vals, bits) && (i < |ts| - 1 || within))
  }

  /** The candidates that went, in order. */
  ghost function Gone(ts: seq<Trial>): seq<nat> {
    if ts == [] then []
    else
      var t := ts[|ts|-1];
      Gone(ts[..|ts|-1]) + if t.blocked then [t.c] else []
  }

  /** One entry for each of them. */
  ghost predicate EntriesOf(es: seq<Entry>, cs: seq<nat>, literals: map<nat, Clause>) {
    && |es| == |cs|
    && forall i :: 0 <= i < |es| ==> es[i].id == cs[i] && cs[i] in literals && es[i].clause == literals[cs[i]]
  }

  lemma OneMoreTrial(ts: seq<Trial>, t: Trial)
    ensures Gone(ts + [t]) == Gone(ts) + if t.blocked then [t.c] else []
    ensures !t.blocked ==> Gone(ts + [t]) == Gone(ts)
    ensures Tried(ts + [t]) == Tried(ts) + [t.c]
    ensures Refs(Gone(ts + [t])) == Refs(Gone(ts)) + if t.blocked then {t.c} else {}
    ensures Refs(Tried(ts + [t])) == Refs(Tried(ts)) + {t.c}
  {
    assert (ts + [t])[..|ts|] == ts;
    assert Tried(ts + [t]) == Tried(ts) + [t.c];
  }

  lemma OneMoreOutcome(ts: seq<Trial>, t: Trial, within: bool, rs: set<nat>, literals: map<nat, Clause>,
        vals: map<int, bool>, bits: set<int>)
    requires Outcomes(ts, true, rs, literals, vals, bits) && t.c in literals
    requires t.blocked <==> within && Blockable(literals[t.c], rs, literals, vals, bits)
    ensures Outcomes(ts + [t], within, rs, literals, vals, bits)
  {
    hide Blockable;
  }

  lemma OneMoreEntry(es: seq<Entry>, cs: seq<nat>, fs: seq<Entry>, c: nat, literals: map<nat, Clause>)
    requires EntriesOf(es, cs, literals) && EntriesOf(fs, [c], literals)
    ensures EntriesOf(es + fs, cs + [c], literals)
  {
  }

  lemma NoTrials(within: bool, rs: set<nat>, literals: map<nat, Clause>, vals: map<int, bool>, bits: set<int>)
    ensures Outcomes([], within, rs, literals, vals, bits) && Tried([]) == [] && Gone([]) == []
    ensures EntriesOf([], [], literals) && Refs([]) == {}
  {
  }
}
