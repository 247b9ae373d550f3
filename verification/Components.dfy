/** Strongly connected components of the binary implication graph, found with an
    explicit work stack, and their representatives. */
module Components {
  import opened Logic
  import opened Watching
  import opened Digraph
  import opened Tarjan

  ghost function Nodes(active: set<int>): set<Lit> {
    (set v | v in active && v > 0 :: v as Lit) + (set v | v in active && v > 0 :: (0 - v) as Lit)
  }

  lemma NodesOf(active: set<int>, l: Lit)
    ensures l in Nodes(active) <==> Var(l) in active
  {
    if Var(l) in active {
      assert l == (if l > 0 then Var(l) else 0 - Var(l));
    }
  }

  function Listed(watches: WatchLists, l: Lit): seq<Watch> {
    if l in watches then watches[l] else []
  }

  /** The literals implied by `l` through binary clauses. */
  ghost function Children(watches: WatchLists, active: set<int>, l: Lit): set<Lit> {
    set w | w in Listed(watches, Neg(l)) && w.size == 2 && Var(w.blit) in active :: w.blit
  }

  ghost function GraphOf(watches: WatchLists, active: set<int>): Graph {
    map l | l in Nodes(active) :: Children(watches, active, l)
  }

  lemma EdgeOf(watches: WatchLists, active: set<int>, a: Lit, b: Lit)
    ensures Edge(GraphOf(watches, active), a, b) <==> Var(a) in active && b in Children(watches, active, a)
    ensures Edge(GraphOf(watches, active), a, b) ==> Var(b) in active
  {
    NodesOf(active, a);
  }

  /** Frozen literals stay; all others get the smallest literal of their component.
      No literal is in the component of its negation. */
  ghost predicate RepOf(g: Graph, frozen: set<int>, reprs: map<Lit, Lit>, l: Lit) {
    && l in reprs && (if Var(l) in frozen then reprs[l] == l else IsRep(g, l, reprs[l]))
    && !Mutual(g, l, Neg(l))
  }

  ghost predicate AllOwn(reprs: map<Lit, Lit>) {
    forall l :: l in reprs ==> reprs[l] == l
  }

  ghost predicate Represented(g: Graph, nodes: set<Lit>, frozen: set<int>, reprs: map<Lit, Lit>) {
    forall l :: l in nodes ==> RepOf(g, frozen, reprs, l)
  }

  class DepthFirst {
    const watches: WatchLists
    const active: set<int>
    const frozen: set<int>
    const maxVar: nat
    var idx: map<Lit, nat>
    var low: map<Lit, nat>
    var traversed: set<Lit>
    var reprs: map<Lit, Lit>
    var dfsIdx: nat
    var work: seq<Lit>
    var scc: seq<Lit>
    var substituted: nat
    var conflict: Option<Lit>
    ghost var frames: seq<Frame>

    constructor (watches: WatchLists, active: set<int>, frozen: set<int>, maxVar: nat)
      ensures this.watches == watches && this.active == active && this.frozen == frozen && this.maxVar == maxVar
      ensures idx == map[] && low == map[] && traversed == {} && reprs == map[] && dfsIdx == 0 && work == []
      ensures scc == []
      ensures substituted == 0 && conflict == None && frames == []
    {
      this.watches, this.active, this.frozen, this.maxVar := watches, active, frozen, maxVar;
      idx, low, traversed, reprs, dfsIdx, work, scc := map[], map[], {}, map[], 0, [], [];
      substituted, conflict, frames := 0, None, [];
    }

    ghost function G(): Graph {
      GraphOf(watches, active)
    }

    ghost function S(): Search
      reads this`idx, this`low, this`traversed, this`scc, this`frames
    {
      Search(idx, low, traversed, scc, frames)
    }

    /** What holds between two steps of the search. */
    ghost predicate Valid()
      reads this`idx, this`low, this`traversed, this`scc, this`frames, this`reprs, this`dfsIdx, this`substituted
    {
      && Inv(G(), S(), dfsIdx) && idx.Keys <= Nodes(active) && Represented(G(), traversed, frozen, reprs)
      && reprs.Keys == traversed && (substituted == 0 <==> AllOwn(reprs))
    }

    /** The work stack: a root that has not been entered, or the open nodes with
        their pending children. */
    ghost predicate Working(root: Lit)
      reads this`work, this`frames, this`idx
    {
      work == Flatten(frames) || (frames == [] && work == [root] && root !in idx && Var(root) in active)
    }

    /** The smallest low number of the node and its children that are not done. */
    method NewMin(parent: Lit) returns (newMin: nat)
      requires Var(parent) in active && parent in low && forall c :: Edge(G(), parent, c) ==> c in low
      ensures newMin <= low[parent] && forall c :: Edge(G(), parent, c) && c !in traversed ==> newMin <= low[c]
      ensures newMin == low[parent] || exists c :: Edge(G(), parent, c) && c !in traversed && newMin == low[c]
    {
      hide Edge, Children, GraphOf;
      var ws := Listed(watches, Neg(parent));
      newMin := low[parent];
      for k := 0 to |ws|
        invariant newMin <= low[parent]
        invariant forall j :: 0 <= j < k && IsChild(ws[j]) && ws[j].blit !in traversed ==>
          ws[j].blit in low && newMin <= low[ws[j].blit]
        invariant newMin == low[parent] || exists c :: Edge(G(), parent, c) && c !in traversed && newMin == low[c]
      {
        if ws[k].size != 2 {
          continue;
        }
        var child := ws[k].blit;
        if Var(child) !in active {
          continue;
        }
        ChildAt(watches, active, parent, k);
        if child !in traversed && newMin > low[child] {
          newMin := low[child];
        }
      }
      forall c | Edge(G(), parent, c) && c !in traversed
        ensures newMin <= low[c]
      {
        var k := ChildOf(watches, active, parent, c);
      }
    }

    predicate IsChild(w: Watch) {
      w.size == 2 && Var(w.blit) in active
    }

    /** The children without a number are pushed. */
    method PushChildren(parent: Lit) returns (ghost kids: seq<Lit>)
      requires Var(parent) in active && parent in idx
      modifies this`work
      ensures work == old(work) + kids
      ensures forall c :: c in kids ==> Edge(G(), parent, c) && c !in idx
      ensures forall c :: Edge(G(), parent, c) && c !in idx ==> c in kids
    {
      hide Edge, Children, GraphOf;
      var ws := Listed(watches, Neg(parent));
      kids := [];
      for k := 0 to |ws|
        invariant work == old(work) + kids
        invariant forall c :: c in kids ==> Edge(G(), parent, c) && c !in idx
        invariant forall j :: 0 <= j < k && IsChild(ws[j]) && ws[j].blit !in idx ==> ws[j].blit in kids
      {
        if ws[k].size != 2 {
          continue;
        }
        var child := ws[k].blit;
        if Var(child) !in active {
          continue;
        }
        if child in idx {
          continue;
        }
        ChildAt(watches, active, parent, k);
        work := work + [child];
        kids := kids + [child];
      }
      forall c | Edge(G(), parent, c) && c !in idx
        ensures c in kids
      {
        var k := ChildOf(watches, active, parent, c);
      }
    }

    /** The top of the work stack has no number: it is entered. */
    method PreFix(ghost root: Lit)
      requires Valid() && Working(root) && work != [] && work[|work| - 1] !in idx
      modifies this`dfsIdx, this`idx, this`low, this`scc, this`work, this`frames
      ensures Valid() && Working(root) && traversed == old(traversed)
      ensures idx.Keys == old(idx).Keys + {old(work)[|old(work)| - 1]} && old(work)[|old(work)| - 1] in Nodes(active)
    {
      hide AllOwn, Inv, Edge, GraphOf, Represented, Nodes, Flatten;
      var parent := work[|work| - 1];
      ghost var s := S();
      TopEnters(G(), S(), dfsIdx, work, root, active);
      EnteredNode(watches, active, S(), parent);
      NodesOf(active, parent);
      dfsIdx := dfsIdx + 1;
      idx, low := idx[parent := dfsIdx], low[parent := dfsIdx];
      scc := scc + [parent];
      ghost var work0 := work;
      ghost var kids := PushChildren(parent);
      KidsOf(G(), s, parent, dfsIdx, kids);
      EnterKeeps(G(), s, parent, dfsIdx - 1, kids);
      frames := frames + [Frame(parent, kids)];
      assert S() == Enter(s, parent, dfsIdx, kids);
      if s.frames != [] {
        UnderTop(G(), s, dfsIdx, work0, parent, kids);
        DropKeeps(G(), S(), dfsIdx, |s.frames| - 1);
        frames := Drop(S(), |s.frames| - 1).frames;
      } else {
        FirstFrame(parent, kids);
        assert frames == [Frame(parent, kids)] && work0 == [parent];
      }
    }

    /** The node at the top of the work stack is done with. */
    method PopTraversed(ghost root: Lit)
      requires Valid() && Working(root) && work != [] && work[|work| - 1] in traversed
      modifies this`work, this`frames
      ensures Valid() && Working(root) && |work| < |old(work)|
    {
      hide Inv, Edge, GraphOf, Represented, Nodes, Flatten;
      TopDone(G(), S(), dfsIdx, work, root);
      FlattenPop(frames);
      DropKeeps(G(), S(), dfsIdx, |frames| - 1);
      work := work[..|work| - 1];
      frames := Drop(S(), |frames| - 1).frames;
      assert frames == old(frames)[..|frames| - 1] + [frames[|frames| - 1]];
    }

    /** The node at the top of the work stack has a number: the smallest number it
        reaches decides whether a component is complete. */
    method PostFix(ghost root: Lit)
      requires Valid() && Working(root) && work != [] && work[|work| - 1] in idx && work[|work| - 1] !in traversed
      requires Skew(G()) && conflict == None
      modifies this`work, this`low, this`frames, this`scc, this`traversed, this`reprs, this`substituted, this`conflict
      ensures conflict == None ==> Valid() && Working(root) && |work| < |old(work)|
      ensures conflict.Some? ==> Mutual(G(), conflict.value, Neg(conflict.value))
    {
      hide AllOwn, Inv, Edge, GraphOf, Represented, Nodes, Flatten, Mutual, IsEntry, Finished, IsOpen, LowAt, Skew;
      ghost var s := S();
      var parent := work[|work| - 1];
      TopVisited(G(), s, dfsIdx, work, root);
      TopActive(watches, active, s, dfsIdx, parent);
      FlattenPop(frames);
      work := work[..|work| - 1];
      var newMin := NewMin(parent);
      NewMinIsLow(G(), s, dfsIdx, parent, newMin);
      if idx[parent] == newMin {
        EntryAt(G(), s, dfsIdx, parent, newMin);
        ghost var k := PositionOf(scc, parent);
        EntryIs(G(), s, k, parent);
        CompleteComponent(parent, k, root);
      } else {
        low := low[parent := newMin];
        LowerKeeps(G(), s, dfsIdx, parent, newMin);
        assert S() == Lower(s, parent, newMin);
        if s.frames[|s.frames| - 1].pending == [] {
          LowFinished(G(), s, dfsIdx, parent, newMin);
          LeaveKeeps(G(), S(), dfsIdx);
          frames := Leave(S()).frames;
        } else {
          DropKeeps(G(), S(), dfsIdx, |frames| - 1);
          frames := Drop(S(), |frames| - 1).frames;
          assert frames == s.frames[..|frames| - 1] + [frames[|frames| - 1]];
        }
      }
    }

    /** All nodes on the stack from `parent` on form a component. */
    method CompleteComponent(parent: Lit, ghost k: nat, ghost root: Lit)
      requires Valid() && IsEntry(G(), S(), k) && scc[k] == parent && Skew(G()) && conflict == None
      requires frames != [] && work == Flatten(frames[..|frames| - 1])
      modifies this`frames, this`scc, this`traversed, this`reprs, this`substituted, this`conflict
      ensures conflict == None ==> Valid() && work == Flatten(frames)
      ensures conflict.Some? ==> Mutual(G(), conflict.value, Neg(conflict.value))
    {
      hide AllOwn, Inv, Edge, GraphOf, Represented, Nodes, Flatten, Mutual, Finished, Skew, NoDuplicates;
      ghost var s := S();
      StackDistinct(G(), s, dfsIdx);
      assert Lits(s.scc[k..]) !! traversed;
      var repr := ScanComponent(parent, k);
      if conflict.Some? {
        ComponentOf(G(), s, dfsIdx, k, Neg(parent));
        return;
      }
      CompleteKeeps(G(), s, dfsIdx, k);
      ghost var reprs0, traversed0 := reprs, traversed;
      PopComponent(parent, repr, k);
      frames := frames[..|frames| - 1];
      assert S() == Complete(s, k);
      MoreOwn(reprs0, reprs, Lits(s.scc[k..]), repr, frozen);
      ComponentRepresented(G(), s, dfsIdx, k, repr, frozen, reprs0, reprs);
    }

    /** The literal with the smallest variable, or a conflict if the negation of the
        entry is in the component. */
    method ScanComponent(parent: Lit, ghost k: nat) returns (repr: Lit)
      requires k < |scc| && scc[k] == parent && NoDuplicates(scc) && conflict == None
      modifies this`conflict
      ensures conflict.Some? ==> conflict == Some(parent) && Neg(parent) in scc[k..]
      ensures conflict == None ==>
        repr in scc[k..] && Neg(parent) !in scc[k..] && forall l :: l in scc[k..] ==> Var(repr) <= Var(l)
    {
      repr := parent;
      var j := |scc|;
      var last := false;
      while !last
        invariant k <= j <= |scc| && last == (j == k) && conflict == None
        invariant repr == parent || repr in scc[j..]
        invariant Neg(parent) !in scc[j..] && forall l :: l in scc[j..] ==> Var(repr) <= Var(l)
        decreases j
      {
        j := j - 1;
        var other := scc[j];
        assert scc[j..] == [other] + scc[j + 1..];
        if other == Neg(parent) {
          conflict := Some(parent);
          assert scc[k..][j - k] == other;
          return;
        }
        if Var(other) < Var(repr) {
          repr := other;
        }
        last := other == parent;
      }
    }

    /** Pop the component and record the representative of its literals. */
    method PopComponent(parent: Lit, repr: Lit, ghost k: nat)
      requires k < |scc| && scc[k] == parent && NoDuplicates(scc)
      modifies this`scc, this`traversed, this`reprs, this`substituted
      ensures scc == old(scc)[..k] && traversed == old(traversed) + Lits(old(scc)[k..])
      ensures Popped(old(reprs), reprs, Lits(old(scc)[k..]), repr, frozen)
      ensures substituted >= old(substituted)
      ensures substituted == old(substituted) <==> OwnOnes(reprs, Lits(old(scc)[k..]))
    {
      hide Lits, Popped;
      ghost var scc0, j, popped: set<Lit> := scc, |scc|, {};
      assert scc0[|scc0|..] == [];
      NothingPopped(reprs, repr, frozen);
      var last := false;
      while !last
        invariant k <= j <= |scc0| && scc == scc0[..j] && last == (j == k) && popped == Lits(scc0[j..])
        invariant traversed == old(traversed) + popped && Popped(old(reprs), reprs, popped, repr, frozen)
        invariant substituted >= old(substituted) && (substituted == old(substituted) <==> OwnOnes(reprs, popped))
        decreases j
      {
        j := j - 1;
        var other := scc[|scc| - 1];
        FirstLit(scc0, j);
        PopOne(old(reprs), reprs, popped, repr, frozen, other);
        OwnNext(reprs, popped, other, if Var(other) in frozen then other else repr);
        popped := popped + {other};
        scc := scc[..|scc| - 1];
        traversed := traversed + {other};
        if Var(other) in frozen {
          reprs := reprs[other := other];
        } else {
          reprs := reprs[other := repr];
          if other != repr {
            substituted := substituted + 1;
          }
        }
        last := other == parent;
      }
    }

    /** One step at the top of the work stack. */
    method Step(ghost root: Lit)
      requires Valid() && Working(root) && work != [] && Skew(G()) && conflict == None
      modifies this`work, this`idx, this`low, this`dfsIdx, this`frames, this`scc, this`traversed, this`reprs,
               this`substituted, this`conflict
      ensures conflict == None ==>
        Valid() && Working(root) && old(idx).Keys <= idx.Keys && old(work)[|old(work)| - 1] in idx.Keys
      ensures conflict == None ==>
        Unseen(active, idx) < Unseen(active, old(idx)) || (idx == old(idx) && |work| < |old(work)|)
      ensures conflict.Some? ==> Mutual(G(), conflict.value, Neg(conflict.value))
    {
      hide Inv, Edge, GraphOf, Represented, Nodes, Flatten, Mutual, Skew, Unseen;
      var parent := work[|work| - 1];
      if parent in traversed {
        DoneHasNumber(G(), S(), dfsIdx, parent);
        PopTraversed(root);
      } else if parent in idx {
        PostFix(root);
      } else {
        ghost var idx0 := idx;
        PreFix(root);
        FewerUnseen(active, idx0, idx, parent);
      }
    }

    /** Search from one root. */
    method SearchFrom(root: Lit)
      requires Valid() && work == [] && frames == [] && root !in traversed && Var(root) in active && Skew(G())
      requires conflict == None
      modifies this`work, this`idx, this`low, this`dfsIdx, this`frames, this`scc, this`traversed, this`reprs,
               this`substituted, this`conflict
      ensures conflict == None ==>
        Valid() && work == [] && frames == [] && root in traversed && old(traversed) <= traversed
      ensures conflict.Some? ==> Mutual(G(), conflict.value, Neg(conflict.value))
    {
      hide Inv, Edge, GraphOf, Represented, Nodes, Flatten, Mutual, Skew, Unseen;
      NothingOpen(G(), S(), dfsIdx);
      work := [root];
      ghost var idx0 := idx;
      while conflict == None && work != []
        invariant conflict == None ==> Valid() && Working(root) && idx0.Keys <= idx.Keys
        invariant conflict == None ==> root in idx.Keys || work == [root]
        invariant conflict.Some? ==> Mutual(G(), conflict.value, Neg(conflict.value))
        decreases conflict == None, Unseen(active, idx), |work|
      {
        Step(root);
      }
      if conflict == None {
        FlattenEmpty(frames);
        NothingOpen(G(), S(), dfsIdx);
      }
    }

    /** Search from all literals of active variables, negative ones first. */
    method SearchAll()
      requires idx == map[] && low == map[] && traversed == {} && reprs == map[] && work == [] && scc == []
      requires frames == []
      requires dfsIdx == 0 && substituted == 0 && conflict == None && Skew(G())
      requires forall v :: v in active ==> 1 <= v <= maxVar
      modifies this
      ensures conflict == None ==>
        && Represented(G(), Nodes(active), frozen, reprs)
        && (substituted == 0 <==> AllOwn(reprs))
      ensures conflict == None ==> reprs.Keys == Nodes(active)
      ensures conflict.Some? ==> Mutual(G(), conflict.value, Neg(conflict.value))
    {
      hide AllOwn, Inv, Edge, GraphOf, Nodes, Mutual, Skew, Represented;
      NothingSearched(G(), S(), frozen, reprs);
      for v := 1 to maxVar + 1
        invariant conflict == None ==> Valid() && work == [] && frames == []
        invariant conflict == None ==> forall l: Lit :: Var(l) in active && Var(l) < v ==> l in traversed
        invariant conflict.Some? ==> Mutual(G(), conflict.value, Neg(conflict.value))
      {
        if conflict.Some? {
          break;
        }
        if v !in active {
          continue;
        }
        var negative: Lit := 0 - v;
        if negative !in traversed {
          SearchFrom(negative);
        }
        if conflict == None {
          var positive: Lit := v;
          if positive !in traversed {
            SearchFrom(positive);
          }
        }
      }
      if conflict == None {
        AllNodes(active, traversed, maxVar);
        NothingOpen(G(), S(), dfsIdx);
        RepresentedFewer(G(), Nodes(active), traversed, frozen, reprs);
      }
    }
  }

  lemma AllNodes(active: set<int>, traversed: set<Lit>, maxVar: nat)
    requires forall l: Lit :: Var(l) in active && Var(l) <= maxVar ==> l in traversed
    requires forall v :: v in active ==> 1 <= v <= maxVar
    ensures Nodes(active) <= traversed
  {
    forall l | l in Nodes(active)
      ensures l in traversed
    {
      NodesOf(active, l);
    }
  }

  lemma NothingSearched(g: Graph, s: Search, frozen: set<int>, reprs: map<Lit, Lit>)
    requires s == Search(map[], map[], {}, [], [])
    ensures Inv(g, s, 0) && Represented(g, {}, frozen, reprs) && AllOwn(map[])
  {
  }

  lemma RepresentedFewer(g: Graph, fewer: set<Lit>, nodes: set<Lit>, frozen: set<int>, reprs: map<Lit, Lit>)
    requires Represented(g, nodes, frozen, reprs) && fewer <= nodes
    ensures Represented(g, fewer, frozen, reprs)
  {
    hide RepOf;
  }

  lemma DoneHasNumber(g: Graph, s: Search, n: nat, l: Lit)
    requires Inv(g, s, n) && l in s.done
    ensures l in s.idx.Keys
  {
  }

  /** The popped literals got their representative, the others kept theirs. */
  ghost predicate OwnOnes(reprs: map<Lit, Lit>, ls: set<Lit>) {
    forall l :: l in ls ==> l in reprs && reprs[l] == l
  }

  lemma OwnNext(reprs: map<Lit, Lit>, popped: set<Lit>, l: Lit, r: Lit)
    requires l !in popped
    ensures OwnOnes(reprs[l := r], popped + {l}) <==> OwnOnes(reprs, popped) && r == l
  {
    forall k | k in popped
      ensures (k in reprs[l := r] <==> k in reprs) && (k in reprs ==> reprs[l := r][k] == reprs[k])
    {
    }
    assert r != l ==> l in popped + {l};
  }

  lemma MoreOwn(reprs0: map<Lit, Lit>, reprs: map<Lit, Lit>, popped: set<Lit>, repr: Lit, frozen: set<int>)
    requires Popped(reprs0, reprs, popped, repr, frozen) && popped !! reprs0.Keys
    ensures AllOwn(reprs) <==> AllOwn(reprs0) && OwnOnes(reprs, popped)
  {
    forall l | l in reprs0
      ensures l in reprs && reprs[l] == reprs0[l]
    {
      assert l in reprs0.Keys;
    }
    forall l | l in popped
      ensures l in reprs
    {
      assert l in reprs.Keys;
    }
    forall l | l in reprs
      ensures l in reprs0 || l in popped
    {
      assert l in reprs.Keys;
    }
  }

  ghost predicate Popped(reprs0: map<Lit, Lit>, reprs: map<Lit, Lit>, popped: set<Lit>, repr: Lit, frozen: set<int>) {
    && reprs.Keys == reprs0.Keys + popped
    && (forall l :: l in popped ==> reprs[l] == if Var(l) in frozen then l else repr)
    && (forall l :: l in reprs0 && l !in popped ==> reprs[l] == reprs0[l])
  }

  lemma NothingPopped(reprs: map<Lit, Lit>, repr: Lit, frozen: set<int>)
    ensures Popped(reprs, reprs, {}, repr, frozen) && Lits([]) == {}
  {
  }

  lemma PopOne(reprs0: map<Lit, Lit>, reprs: map<Lit, Lit>, popped: set<Lit>, repr: Lit, frozen: set<int>, l: Lit)
    requires Popped(reprs0, reprs, popped, repr, frozen)
    ensures Popped(reprs0, reprs[l := if Var(l) in frozen then l else repr], popped + {l}, repr, frozen)
    ensures forall k :: k in popped ==> k in reprs
  {
  }

  lemma NothingOpen(g: Graph, s: Search, n: nat)
    requires Inv(g, s, n) && s.frames == []
    ensures s.scc == [] && s.done == s.idx.Keys
  {
    NoneOpen(g, s, n);
  }

  lemma FlattenEmpty(fs: seq<Frame>)
    requires Flatten(fs) == []
    ensures fs == []
  {
    if fs != [] {
      FlattenPop(fs);
    }
  }

  /** The literals without a number. */
  ghost function Unseen(active: set<int>, idx: map<Lit, nat>): nat {
    |Nodes(active) - idx.Keys|
  }

  lemma FewerUnseen(active: set<int>, idx0: map<Lit, nat>, idx: map<Lit, nat>, l: Lit)
    requires l in Nodes(active) && l !in idx0 && idx.Keys == idx0.Keys + {l}
    ensures Unseen(active, idx) < Unseen(active, idx0)
  {
    hide Nodes;
    assert Nodes(active) - idx.Keys == (Nodes(active) - idx0.Keys) - {l};
  }

  lemma FirstLit(s: seq<Lit>, j: nat)
    requires j < |s|
    ensures Lits(s[j..]) == Lits(s[j + 1..]) + {s[j]}
    ensures NoDuplicates(s) ==> s[j] !in Lits(s[j + 1..])
  {
    assert s[j..] == [s[j]] + s[j + 1..];
    forall l
      ensures l in Lits(s[j..]) <==> l in Lits(s[j + 1..]) + {s[j]}
    {
    }
  }

  lemma PositionOf(s: seq<Lit>, l: Lit) returns (k: nat)
    requires l in s
    ensures k < |s| && s[k] == l
  {
    k :| 0 <= k < |s| && s[k] == l;
  }

  lemma StackDistinct(g: Graph, s: Search, n: nat)
    requires Inv(g, s, n)
    ensures NoDuplicates(s.scc) && forall k :: 0 <= k <= |s.scc| ==> Lits(s.scc[k..]) !! s.done
  {
    hide FramesOk, Left, ReachDown, ReachUp, LowOk, Covered, Closed, Strict;
    forall i, j | 0 <= i < j < |s.scc|
      ensures s.scc[i] != s.scc[j]
    {
      assert s.scc[i] in s.scc && s.scc[j] in s.scc;
    }
  }

  lemma ChildAt(watches: WatchLists, active: set<int>, l: Lit, k: nat)
    requires Var(l) in active && k < |Listed(watches, Neg(l))| && Listed(watches, Neg(l))[k].size == 2
    requires Var(Listed(watches, Neg(l))[k].blit) in active
    ensures Edge(GraphOf(watches, active), l, Listed(watches, Neg(l))[k].blit)
  {
    hide Children;
    EdgeOf(watches, active, l, Listed(watches, Neg(l))[k].blit);
    InChildren(watches, active, l, k);
  }

  lemma InChildren(watches: WatchLists, active: set<int>, l: Lit, k: nat)
    requires k < |Listed(watches, Neg(l))| && Listed(watches, Neg(l))[k].size == 2
    requires Var(Listed(watches, Neg(l))[k].blit) in active
    ensures Listed(watches, Neg(l))[k].blit in Children(watches, active, l)
  {
    assert Listed(watches, Neg(l))[k] in Listed(watches, Neg(l));
  }

  lemma ChildOf(watches: WatchLists, active: set<int>, l: Lit, c: Lit) returns (k: nat)
    requires Edge(GraphOf(watches, active), l, c)
    ensures k < |Listed(watches, Neg(l))| && Listed(watches, Neg(l))[k].size == 2 && Var(c) in active
    ensures Listed(watches, Neg(l))[k].blit == c
  {
    EdgeOf(watches, active, l, c);
    var w :| w in Listed(watches, Neg(l)) && w.size == 2 && Var(w.blit) in active && w.blit == c;
    k :| 0 <= k < |Listed(watches, Neg(l))| && Listed(watches, Neg(l))[k] == w;
  }

  // ---------------------------------------------------- the top of the work stack

  /** A node without a number on top is the root, or pending for the last open node. */
  lemma TopEnters(g: Graph, s: Search, n: nat, work: seq<Lit>, root: Lit, active: set<int>)
    requires Inv(g, s, n) && work != [] && work[|work| - 1] !in s.idx
    requires work == Flatten(s.frames) || (s.frames == [] && work == [root] && Var(root) in active)
    ensures CanEnter(g, s, work[|work| - 1])
    ensures s.frames == [] ==> work == [root] && Var(root) in active
    ensures s.frames != [] ==>
      var f := s.frames[|s.frames| - 1]; f.pending != [] && f.pending[|f.pending| - 1] == work[|work| - 1]
  {
    hide Reaches, Edge, Left, ReachDown, ReachUp, LowOk, Covered, Closed, Strict;
    if s.frames != [] {
      FlattenPop(s.frames);
      FrameFacts(g, s, |s.frames| - 1);
    }
  }

  lemma EnteredNode(watches: WatchLists, active: set<int>, s: Search, c: Lit)
    requires CanEnter(GraphOf(watches, active), s, c) && (s.frames == [] ==> Var(c) in active)
    ensures Var(c) in active
  {
    if s.frames != [] {
      EdgeOf(watches, active, s.frames[|s.frames| - 1].node, c);
    }
  }

  lemma KidsOf(g: Graph, s: Search, c: Lit, n: nat, kids: seq<Lit>)
    requires forall k :: k in kids ==> Edge(g, c, k) && k !in s.idx[c := n]
    requires forall k :: Edge(g, c, k) && k !in s.idx[c := n] ==> k in kids
    ensures Kids(g, s, c, kids)
  {
    hide Edge;
  }

  lemma FlattenNone()
    ensures Flatten([]) == []
  {
  }

  lemma FirstFrame(c: Lit, kids: seq<Lit>)
    ensures Flatten([Frame(c, kids)]) == [c] + kids
  {
    assert [Frame(c, kids)][..0] == [];
    assert Flatten([]) == [];
  }

  /** The node entered is no longer pending below. */
  lemma UnderTop(g: Graph, s: Search, n: nat, work: seq<Lit>, c: Lit, kids: seq<Lit>)
    requires s.frames != [] && work == Flatten(s.frames) && work != [] && c == work[|work| - 1]
    requires var f := s.frames[|s.frames| - 1]; f.pending != [] && f.pending[|f.pending| - 1] == c
    ensures var k, t := |s.frames| - 1, Enter(s, c, n, kids);
            && t.frames[k] == s.frames[k] && c in t.idx && Flatten(Drop(t, k).frames) == work + kids
  {
    hide Flatten;
    var k, t := |s.frames| - 1, Enter(s, c, n, kids);
    var f := s.frames[k];
    var less := Frame(f.node, f.pending[..|f.pending| - 1]);
    FlattenPop(s.frames);
    assert Drop(t, k).frames == (s.frames[..k] + [less]) + [Frame(c, kids)];
    FlattenMore(s.frames[..k] + [less], Frame(c, kids));
    assert work == work[..|work| - 1] + [c];
  }

  lemma TopDone(g: Graph, s: Search, n: nat, work: seq<Lit>, root: Lit)
    requires Inv(g, s, n) && work != [] && work[|work| - 1] in s.done
    requires work == Flatten(s.frames) || (s.frames == [] && work == [root] && root !in s.idx)
    ensures s.frames != [] && work == Flatten(s.frames)
    ensures var f := s.frames[|s.frames| - 1];
      f.pending != [] && f.pending[|f.pending| - 1] == work[|work| - 1] && work[|work| - 1] in s.idx
  {
    hide Reaches, Edge, Left, ReachDown, ReachUp, LowOk, Covered, Closed, Strict;
    FlattenNone();
    if s.frames != [] {
      FlattenPop(s.frames);
      FrameFacts(g, s, |s.frames| - 1);
    }
  }

  /** A node with a number that is not done is open without pending children, or was
      left before. */
  lemma TopVisited(g: Graph, s: Search, n: nat, work: seq<Lit>, root: Lit)
    requires Inv(g, s, n) && work != [] && work[|work| - 1] in s.idx && work[|work| - 1] !in s.done
    requires work == Flatten(s.frames) || (s.frames == [] && work == [root] && root !in s.idx)
    ensures s.frames != [] && work == Flatten(s.frames) && work[|work| - 1] in s.scc && work[|work| - 1] in s.low
    ensures var f, x := s.frames[|s.frames| - 1], work[|work| - 1];
            if f.pending == [] then x == f.node
            else x == f.pending[|f.pending| - 1] && !IsOpen(s, x) && Edge(g, f.node, x) && s.low[x] < s.idx[x]
    ensures forall c :: Edge(g, work[|work| - 1], c) ==> c in s.idx && c in s.low
  {
    hide Reaches, ReachDown, ReachUp, LowOk, Covered, Closed, FramesOk;
    FlattenNone();
    FlattenPop(s.frames);
    var k := |s.frames| - 1;
    FrameFacts(g, s, k);
    var x := work[|work| - 1];
    if s.frames[k].pending != [] {
      forall i | 0 <= i < |s.frames|
        ensures s.frames[i].node != x
      {
        assert s.frames[i].node !in s.frames[k].pending;
      }
    }
  }

  lemma TopActive(watches: WatchLists, active: set<int>, s: Search, n: nat, x: Lit)
    requires Inv(GraphOf(watches, active), s, n) && x in s.idx && s.idx.Keys <= Nodes(active)
    ensures Var(x) in active
  {
    assert x in s.idx.Keys;
    NodesOf(active, x);
  }

  lemma NewMinIsLow(g: Graph, s: Search, n: nat, x: Lit, m: nat)
    requires Inv(g, s, n) && x in s.scc && x in s.low && forall c :: Edge(g, x, c) ==> c in s.idx && c in s.low
    requires m <= s.low[x] && (m == s.low[x] || exists c :: Edge(g, x, c) && c !in s.done && m == s.low[c])
    ensures LowAt(g, s, x, m) && x in s.idx && m <= s.low[x] <= s.idx[x]
  {
    hide Edge, Reaches, FramesOk, ReachDown, ReachUp, Covered, Left, LowOk, LowAt, Closed;
    LowOkAt(g, s, x);
    LowBelow(g, s, x);
    if m != s.low[x] {
      var c :| Edge(g, x, c) && c !in s.done && m == s.low[c];
      MinimumIsLow(g, s, n, x, c);
    }
  }

  /** An entry is open: nodes that have been left reach below themselves. */
  lemma EntryAt(g: Graph, s: Search, n: nat, x: Lit, m: nat)
    requires Inv(g, s, n) && s.frames != [] && x in s.scc && x in s.low && x in s.idx && m == s.idx[x]
    requires m <= s.low[x] <= s.idx[x]
    requires forall c :: Edge(g, x, c) && c !in s.done ==> c in s.low && m <= s.low[c]
    requires var f := s.frames[|s.frames| - 1]; if f.pending == [] then x == f.node else s.low[x] < s.idx[x]
    ensures Finished(g, s) && s.frames[|s.frames| - 1].node == x && s.frames[|s.frames| - 1].pending == []
    ensures s.low[x] == s.idx[x]
  {
    hide Edge, Reaches, FramesOk, ReachDown, ReachUp, Covered, Left, LowOk, LowAt, Closed;
  }

  lemma EntryIs(g: Graph, s: Search, k: nat, x: Lit)
    requires Finished(g, s) && s.frames != [] && s.frames[|s.frames| - 1].node == x && k < |s.scc| && s.scc[k] == x
    requires x in s.low && x in s.idx && s.low[x] == s.idx[x]
    ensures IsEntry(g, s, k)
  {
  }

  lemma LowFinished(g: Graph, s: Search, n: nat, x: Lit, m: nat)
    requires Inv(g, s, n) && s.frames != [] && s.frames[|s.frames| - 1].pending == []
    requires s.frames[|s.frames| - 1].node == x
    requires x in s.low && x in s.idx && m <= s.low[x] <= s.idx[x] && m != s.idx[x]
    requires forall c :: Edge(g, x, c) && c !in s.done ==> c in s.low && m <= s.low[c]
    ensures Finished(g, Lower(s, x, m)) && Lower(s, x, m).low[x] < Lower(s, x, m).idx[x]
  {
    hide Edge, Reaches, FramesOk, ReachDown, ReachUp, Covered, Left, LowOk, LowAt, Closed;
  }

  /** The literals of the component get their representative. */
  lemma ComponentRepresented(g: Graph, s: Search, n: nat, k: nat, repr: Lit, frozen: set<int>, reprs0: map<Lit, Lit>,
        reprs: map<Lit, Lit>)
    requires Inv(g, s, n) && IsEntry(g, s, k) && Skew(g) && Represented(g, s.done, frozen, reprs0)
    requires reprs0.Keys == s.done
    requires repr in s.scc[k..] && Neg(s.scc[k]) !in s.scc[k..] && forall l :: l in s.scc[k..] ==> Var(repr) <= Var(l)
    requires Popped(reprs0, reprs, Lits(s.scc[k..]), repr, frozen)
    ensures Represented(g, s.done + Lits(s.scc[k..]), frozen, reprs)
  {
    hide Inv, IsEntry, Skew, Mutual, IsRep;
    forall l | l in s.done + Lits(s.scc[k..])
      ensures RepOf(g, frozen, reprs, l)
    {
      if l in Lits(s.scc[k..]) {
        ComponentRep(g, s, n, k, repr, l);
      } else {
        assert l in s.done && RepOf(g, frozen, reprs0, l);
        assert l in reprs0.Keys;
      }
    }
  }

  lemma ComponentRep(g: Graph, s: Search, n: nat, k: nat, repr: Lit, l: Lit)
    requires Inv(g, s, n) && IsEntry(g, s, k) && Skew(g) && l in s.scc[k..] && repr in s.scc[k..]
    requires Neg(s.scc[k]) !in s.scc[k..] && forall j :: j in s.scc[k..] ==> Var(repr) <= Var(j)
    ensures IsRep(g, l, repr) && !Mutual(g, l, Neg(l))
  {
    hide Inv, Skew, Mutual, Finished;
    var x := s.scc[k];
    ComponentOf(g, s, n, k, l);
    ComponentOf(g, s, n, k, repr);
    ComponentOf(g, s, n, k, Neg(x));
    MutualSym(g, x, l);
    MutualTrans(g, l, x, repr);
    forall j | Mutual(g, l, j)
      ensures j == repr || Var(repr) < Var(j)
    {
      MutualTrans(g, x, l, j);
      ComponentOf(g, s, n, k, j);
      if j == Neg(repr) {
        ConflictMirror(g, x, repr);
      }
    }
    if Mutual(g, l, Neg(l)) {
      MutualTrans(g, x, l, Neg(l));
      ConflictMirror(g, x, l);
    }
  }

  lemma MutualSym(g: Graph, a: Lit, b: Lit)
    requires Mutual(g, a, b)
    ensures Mutual(g, b, a)
  {
  }
}
